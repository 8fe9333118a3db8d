/**
Off-screen pixel surfaces that remember, as one bounding rectangle, where they were
drawn on since the damage was last taken.
*/
module Surfaces {
  import opened Common

  datatype Rect = Rect(x: nat, y: nat, width: nat, height: nat) {
    predicate Has(px: int, py: int) { x <= px < x + width && y <= py < y + height }
    predicate Empty() { width == 0 || height == 0 }
    predicate Within(w: nat, h: nat) { x + width <= w && y + height <= h }
  }

  /** The part of a rectangle that lies on a w by h canvas. */
  function Clip(r: Rect, w: nat, h: nat): (c: Rect)
    ensures c.Empty() || c.Within(w, h)
    ensures forall px, py :: c.Has(px, py) <==> r.Has(px, py) && px < w && py < h
  {
    if r.x >= w || r.y >= h then Rect(0, 0, 0, 0)
    else Rect(r.x, r.y, Min(r.width, w - r.x), Min(r.height, h - r.y))
  }

  /** The smallest rectangle around two. */
  function Hull(a: Rect, b: Rect): (c: Rect)
    ensures forall px, py :: a.Has(px, py) || b.Has(px, py) ==> c.Has(px, py)
    ensures forall w, h :: a.Within(w, h) && b.Within(w, h) ==> c.Within(w, h)
    ensures !a.Empty() ==> !c.Empty()
  {
    var left, top := Min(a.x, b.x), Min(a.y, b.y);
    var right, bottom := Max(a.x + a.width, b.x + b.width), Max(a.y + a.height, b.y + b.height);
    Rect(left, top, right - left, bottom - top)
  }

  /** Every rectangle with all pixels of both has all pixels of the hull. */
  lemma HullLeast(a: Rect, b: Rect, d: Rect)
    requires !a.Empty() && !b.Empty() && forall x, y :: a.Has(x, y) || b.Has(x, y) ==> d.Has(x, y)
    ensures forall x, y :: Hull(a, b).Has(x, y) ==> d.Has(x, y)
  {
    assert a.Has(a.x, a.y) && a.Has(a.x + a.width - 1, a.y + a.height - 1);
    assert b.Has(b.x, b.y) && b.Has(b.x + b.width - 1, b.y + b.height - 1);
  }

  /** The dirty rectangle after drawing on `r`; an empty one means clean. */
  function Soil(dirty: bool, damage: Rect, r: Rect, w: nat, h: nat): (bool, Rect) {
    var c := Clip(r, w, h);
    if c.Empty() then (dirty, damage)
    else if dirty then (true, Hull(damage, c))
    else (true, c)
  }

  /** Soiling a part and then the whole is soiling the whole. */
  lemma SoilTwice(dirty: bool, damage: Rect, part: Rect, r: Rect, w: nat, h: nat)
    requires !part.Empty() && part.Within(w, h) && r.Within(w, h)
    requires r.x <= part.x && part.x + part.width <= r.x + r.width
    requires r.y <= part.y && part.y + part.height <= r.y + r.height
    ensures var s := Soil(dirty, damage, part, w, h);
      Soil(s.0, s.1, r, w, h) == Soil(dirty, damage, r, w, h)
  {}

  class Surface {
    const width: nat
    const height: nat
    const stride: nat
    const pixels: array2<nat>
    var dirty: bool
    var damage: Rect

    ghost predicate Shaped() {
      0 < width <= stride && 0 < height && pixels.Length0 == height && pixels.Length1 == stride
    }

    ghost predicate Valid()
      reads this
    {
      Shaped() && (dirty ==> !damage.Empty() && damage.Within(width, height))
    }

    constructor (width: nat, height: nat)
      requires width > 0 && height > 0
      ensures Valid() && !dirty && this.width == width && this.height == height && fresh(pixels)
    {
      this.width, this.height, stride := width, height, width;
      pixels := new nat[height, width];
      dirty, damage := false, Rect(0, 0, 0, 0);
    }

    function GetPixel(x: nat, y: nat): nat
      requires Shaped()
      reads pixels
    {
      if x >= width || y >= height then 0 else pixels[y, x]
    }

    /** What surface_mark_dirty leaves behind. */
    twostate predicate Soiled(r: Rect)
      reads this
    {
      (dirty, damage) == Soil(old(dirty), old(damage), r, width, height)
    }

    /** Every pixel that changed lies in the dirty rectangle, which never shrinks. */
    twostate predicate Honest()
      requires Shaped()
      reads this, pixels
    {
      && (forall x, y :: old(dirty) && old(damage).Has(x, y) ==> dirty && damage.Has(x, y))
      && (forall x: nat, y: nat :: x < width && y < height && pixels[y, x] != old(pixels[y, x]) ==>
            dirty && damage.Has(x, y))
    }

    /** Drawing that changes pixels inside `r` only and soils `r` is honest. */
    twostate lemma SoiledHonest(r: Rect)
      requires Shaped() && Soiled(r)
      requires forall x: nat, y: nat :: x < width && y < height && pixels[y, x] != old(pixels[y, x]) ==> r.Has(x, y)
      ensures Honest()
    {}

    method MarkDirty(x: nat, y: nat, w: nat, h: nat)
      requires Valid()
      modifies this
      ensures Valid() && Soiled(Rect(x, y, w, h))
    {
      if x >= width || y >= height { return; }
      var cw, ch := Min(w, width - x), Min(h, height - y);
      if cw == 0 || ch == 0 { return; }
      if !dirty {
        damage := Rect(x, y, cw, ch);
        dirty := true;
        return;
      }
      var left, top := Min(damage.x, x), Min(damage.y, y);
      var right := Max(damage.x + damage.width, x + cw);
      var bottom := Max(damage.y + damage.height, y + ch);
      damage := Rect(left, top, right - left, bottom - top);
    }

    /** Hands over the dirty rectangle and leaves the surface clean. */
    method TakeDamage() returns (taken: bool, r: Rect)
      requires Valid()
      modifies this
      ensures Valid() && !dirty && taken == old(dirty)
      ensures taken ==> r == old(damage)
    {
      if !dirty { return false, Rect(0, 0, 0, 0); }
      r := damage;
      dirty, damage := false, Rect(0, 0, 0, 0);
      return true, r;
    }

    method FillRect(x: nat, y: nat, w: nat, h: nat, color: nat)
      requires Valid()
      modifies this, pixels
      ensures Valid() && Soiled(Rect(x, y, w, h)) && Honest()
      ensures forall px: nat, py: nat :: px < width && py < height ==>
        pixels[py, px] == if Rect(x, y, w, h).Has(px, py) then color else old(pixels[py, px])
    {
      if x >= width || y >= height { return; }
      var cw, ch := Min(w, width - x), Min(h, height - y);
      if cw == 0 || ch == 0 { return; }
      for yy := 0 to ch
        invariant dirty == old(dirty) && damage == old(damage)
        invariant forall px: nat, py: nat :: px < stride && py < height ==>
          pixels[py, px] == if Rect(x, y, cw, yy).Has(px, py) then color else old(pixels[py, px])
      {
        for xx := 0 to cw
          invariant dirty == old(dirty) && damage == old(damage)
          invariant forall px: nat, py: nat :: px < stride && py < height ==>
            pixels[py, px] == if Rect(x, y, cw, yy).Has(px, py) || Rect(x, y + yy, xx, 1).Has(px, py)
                              then color else old(pixels[py, px])
        {
          pixels[y + yy, x + xx] := color;
        }
      }
      MarkDirty(x, y, cw, ch);
    }

    method Clear(color: nat)
      requires Valid()
      modifies this, pixels
      ensures Valid() && dirty && damage == Rect(0, 0, width, height) && Honest()
      ensures forall px: nat, py: nat :: px < width && py < height ==> pixels[py, px] == color
    {
      for y := 0 to height
        invariant dirty == old(dirty) && damage == old(damage)
        invariant forall px: nat, py: nat :: px < width && py < y ==> pixels[py, px] == color
      {
        for x := 0 to width
          invariant dirty == old(dirty) && damage == old(damage)
          invariant forall px: nat, py: nat :: px < width && py < y ==> pixels[py, px] == color
          invariant forall px: nat :: px < x ==> pixels[y, px] == color
        {
          pixels[y, x] := color;
        }
      }
      MarkDirty(0, 0, width, height);
    }

    method PutPixel(x: nat, y: nat, color: nat)
      requires Valid()
      modifies this, pixels
      ensures Valid() && Soiled(Rect(x, y, 1, 1)) && Honest()
      ensures forall px: nat, py: nat :: px < width && py < height ==>
        pixels[py, px] == if px == x && py == y then color else old(pixels[py, px])
    {
      if x >= width || y >= height { return; }
      pixels[y, x] := color;
      MarkDirty(x, y, 1, 1);
    }

    /** Scrolls a clipped rectangle up by `n` rows in place and fills the rows that come free. */
    method ScrollRectUp(x: nat, y: nat, w: nat, h: nat, n: nat, color: nat)
      requires Valid()
      modifies this, pixels
      ensures Valid() && Honest()
      ensures if n == 0 then dirty == old(dirty) && damage == old(damage) else Soiled(Rect(x, y, w, h))
      ensures forall px: nat, py: nat :: px < width && py < height ==>
        pixels[py, px] ==
          if n == 0 || !Rect(x, y, w, h).Has(px, py) then old(pixels[py, px])
          else if py + n < Min(y + h, height) then old(pixels[py + n, px])
          else color
    {
      if n == 0 || x >= width || y >= height { return; }
      var cw, ch := Min(w, width - x), Min(h, height - y);
      if cw == 0 || ch == 0 { return; }
      if n >= ch {
        FillRect(x, y, cw, ch, color);
      } else {
        var rows := ch - n;
        CopyUp(x, y, cw, rows, n);
        FillRect(x, y + rows, cw, n, color);
        SoilTwice(old(dirty), old(damage), Rect(x, y + rows, cw, n), Rect(x, y, cw, ch), width, height);
        MarkDirty(x, y, cw, ch);
      }
      assert Clip(Rect(x, y, cw, ch), width, height) == Clip(Rect(x, y, w, h), width, height);
      SoiledHonest(Rect(x, y, w, h));
    }

    /** The copy loops of the scroll: each of `rows` rows takes the row `n` below it. */
    method CopyUp(x: nat, y: nat, cw: nat, rows: nat, n: nat)
      requires Shaped() && x + cw <= width && y + rows + n <= height && n > 0
      modifies pixels
      ensures forall px: nat, py: nat :: px < stride && py < height ==>
        pixels[py, px] == if Rect(x, y, cw, rows).Has(px, py) then old(pixels[py + n, px]) else old(pixels[py, px])
    {
      for yy := 0 to rows
        invariant forall px: nat, py: nat :: px < stride && py < height ==>
          pixels[py, px] == if Rect(x, y, cw, yy).Has(px, py) then old(pixels[py + n, px]) else old(pixels[py, px])
      {
        for xx := 0 to cw
          invariant forall px: nat, py: nat :: px < stride && py < height ==>
            pixels[py, px] == if Rect(x, y, cw, yy).Has(px, py) || Rect(x, y + yy, xx, 1).Has(px, py)
                              then old(pixels[py + n, px]) else old(pixels[py, px])
        {
          pixels[y + yy, x + xx] := pixels[y + yy + n, x + xx];
        }
      }
    }

    /** Any drawing operation: whatever it changes, the dirty rectangle covers. */
    method Apply(stroke: Stroke)
      requires Valid()
      modifies this, pixels
      ensures Valid() && Honest()
    {
      match stroke
      case Fill(r, color) => FillRect(r.x, r.y, r.width, r.height, color);
      case Dot(x, y, color) => PutPixel(x, y, color);
      case Scroll(r, n, color) => ScrollRectUp(r.x, r.y, r.width, r.height, n, color);
      case Wipe(color) => Clear(color);
    }
  }

  datatype Stroke =
    | Fill(r: Rect, color: nat)
    | Dot(x: nat, y: nat, color: nat)
    | Scroll(r: Rect, n: nat, color: nat)
    | Wipe(color: nat)
}
