/**
The damage compositor. Windows and a panel are stacked over a background; only the
damaged rectangles are repainted.

`Source` says, from geometry alone, whose pixel a screen position shows. The invariant
`Current` says that every position already shows the right pixel, or is damaged, or
belongs to a surface that is still dirty there; presenting discharges the last two.
*/
module Compositing {
  import opened Common
  import opened Counting
  import opened Surfaces

  const MAX_WINDOWS: nat := 8
  const MAX_DAMAGE: nat := 16

  // --------------------------------------------------------------- damage list

  predicate Touch(a: Rect, b: Rect) {
    && a.x <= b.x + b.width && b.x <= a.x + a.width
    && a.y <= b.y + b.height && b.y <= a.y + a.height
  }

  /** A pixel of one rectangle is a pixel of the other or next to one, diagonally too. */
  ghost predicate Neighbours(a: Rect, b: Rect) {
    exists x, y, u, v :: a.Has(x, y) && b.Has(u, v) && -1 <= x - u <= 1 && -1 <= y - v <= 1
  }

  lemma TouchExactly(a: Rect, b: Rect)
    requires !a.Empty() && !b.Empty()
    ensures Touch(a, b) <==> Neighbours(a, b)
  {
    if Touch(a, b) {
      var x, u := Nearest(a.x, a.width, b.x, b.width);
      var y, v := Nearest(a.y, a.height, b.y, b.height);
      assert a.Has(x, y) && b.Has(u, v);
    }
  }

  lemma Nearest(a: nat, n: nat, b: nat, m: nat) returns (x: nat, u: nat)
    requires 0 < n && 0 < m && a <= b + m && b <= a + n
    ensures a <= x < a + n && b <= u < b + m && -1 <= x - u <= 1
  {
    if a == b + m { x, u := a, a - 1; }
    else if b == a + n { x, u := b - 1, b; }
    else { x := Max(a, b); u := x; }
  }

  ghost predicate Covered(ds: seq<Rect>, x: int, y: int) {
    exists d :: d in ds && d.Has(x, y)
  }

  /** A damage list of non-empty rectangles on a w by h screen. */
  ghost predicate Bounded(ds: seq<Rect>, w: nat, h: nat) {
    |ds| <= MAX_DAMAGE && forall d :: d in ds ==> !d.Empty() && d.Within(w, h)
  }

  /** First rectangle at or after `from` that touches `r`, or |ds|. */
  function FirstTouch(ds: seq<Rect>, r: Rect, from: nat): (i: nat)
    requires from <= |ds|
    ensures from <= i <= |ds| && (i < |ds| ==> Touch(ds[i], r))
    ensures forall j :: from <= j < i ==> !Touch(ds[j], r)
    decreases |ds| - from
  {
    if from == |ds| || Touch(ds[from], r) then from else FirstTouch(ds, r, from + 1)
  }

  /** The search loop of compositor_damage. */
  method FindTouch(ds: seq<Rect>, r: Rect) returns (i: nat)
    ensures i == FirstTouch(ds, r, 0)
  {
    i := 0;
    while i < |ds| && !Touch(ds[i], r)
      invariant i <= |ds| && FirstTouch(ds, r, 0) == FirstTouch(ds, r, i)
    {
      i := i + 1;
    }
  }

  /** The damage list once `r`, clipped to the screen, has been added. */
  function AddDamage(ds: seq<Rect>, r: Rect, w: nat, h: nat): seq<Rect> {
    var c := Clip(r, w, h);
    if c.Empty() then ds
    else
      var i := FirstTouch(ds, c, 0);
      if i < |ds| then ds[i := Hull(ds[i], c)]
      else if |ds| >= MAX_DAMAGE then [Rect(0, 0, w, h)]
      else ds + [c]
  }

  /** Merging and overflow lose nothing: all old damage and all of `r` on the screen stay covered. */
  lemma AddDamageCovers(ds: seq<Rect>, r: Rect, w: nat, h: nat)
    requires Bounded(ds, w, h)
    ensures Bounded(AddDamage(ds, r, w, h), w, h)
    ensures forall x, y :: Covered(ds, x, y) || (r.Has(x, y) && x < w && y < h) ==>
      Covered(AddDamage(ds, r, w, h), x, y)
  {
    var c := Clip(r, w, h);
    if !c.Empty() {
      var i := FirstTouch(ds, c, 0);
      var es := AddDamage(ds, r, w, h);
      if i < |ds| {
        forall d | d in es ensures !d.Empty() && d.Within(w, h) {
          if d != es[i] { assert d in ds; }
        }
        forall x, y | Covered(ds, x, y) || (r.Has(x, y) && x < w && y < h) ensures Covered(es, x, y) {
          MergedCovers(ds, i, c, x, y);
        }
      } else if |ds| < MAX_DAMAGE {
        assert forall d :: d in ds ==> d in es;
        assert c in es;
      } else {
        assert es[0] in es;
      }
    }
  }

  lemma CoverStep(ds: seq<Rect>, i: nat)
    requires i < |ds|
    ensures forall x, y :: Covered(ds[..i + 1], x, y) <==> Covered(ds[..i], x, y) || ds[i].Has(x, y)
  {}

  lemma MergedCovers(ds: seq<Rect>, i: nat, c: Rect, x: int, y: int)
    requires i < |ds| && (Covered(ds, x, y) || c.Has(x, y))
    ensures Covered(ds[i := Hull(ds[i], c)], x, y)
  {
    var es := ds[i := Hull(ds[i], c)];
    if c.Has(x, y) || ds[i].Has(x, y) {
      assert es[i] in es;
    } else {
      var d :| d in ds && d.Has(x, y);
      var k :| 0 <= k < |ds| && ds[k] == d;
      assert es[k] in es;
    }
  }

  // ------------------------------------------------------------------ geometry

  datatype Window = Window(surface: Surface, x: nat, y: nat, visible: bool) {
    function Area(): Rect { Rect(x, y, surface.width, surface.height) }
    predicate Covers(px: int, py: int) { visible && Area().Has(px, py) }
  }

  datatype Source = Background | FromWindow(id: nat) | FromPanel

  /** A coordinate pulled back so that `size` still fits in `room`. */
  function Placed(at: nat, size: nat, room: nat): (p: nat)
    requires size <= room
    ensures at + size <= room ==> p == at
    ensures at + size > room ==> p + size == room
  {
    if at > room - size then room - size else at
  }

  ghost predicate Ids(z: seq<nat>, n: nat) {
    forall i :: 0 <= i < |z| ==> z[i] < n
  }

  ghost predicate Full(z: seq<nat>, n: nat) {
    forall id :: 0 <= id < n ==> id in z
  }

  /** The window of the stacking order `z` (bottom first) that is on top at a position. */
  ghost function Top(ws: seq<Window>, z: seq<nat>, x: int, y: int): (r: Option<nat>)
    requires Ids(z, |ws|)
    ensures r.Some? ==> r.value < |ws| && ws[r.value].Covers(x, y)
  {
    if z == [] then None
    else if ws[z[|z| - 1]].Covers(x, y) then Some(z[|z| - 1])
    else Top(ws, z[..|z| - 1], x, y)
  }

  lemma {:induction false} TopConcat(ws: seq<Window>, a: seq<nat>, b: seq<nat>, x: int, y: int)
    requires Ids(a, |ws|) && Ids(b, |ws|)
    ensures Top(ws, a + b, x, y) == if Top(ws, b, x, y).Some? then Top(ws, b, x, y) else Top(ws, a, x, y)
    decreases |b|
  {
    if b == [] {
      assert a + b == a;
    } else {
      assert (a + b)[..|a + b| - 1] == a + b[..|b| - 1];
      if !ws[b[|b| - 1]].Covers(x, y) {
        TopConcat(ws, a, b[..|b| - 1], x, y);
      }
    }
  }

  /** Moving one window to the top changes nothing where that window does not lie. */
  lemma RaiseElsewhere(ws: seq<Window>, a: seq<nat>, id: nat, b: seq<nat>, x: int, y: int)
    requires Ids(a, |ws|) && Ids(b, |ws|) && id < |ws| && !ws[id].Covers(x, y)
    ensures Top(ws, a + b + [id], x, y) == Top(ws, a + [id] + b, x, y)
  {
    TopConcat(ws, a + b, [id], x, y);
    TopConcat(ws, a, b, x, y);
    TopConcat(ws, a + [id], b, x, y);
    TopConcat(ws, a, [id], x, y);
  }

  /** A position does not notice a change to a window that covers it neither before nor after. */
  lemma {:induction false} TopUnseen(ws: seq<Window>, vs: seq<Window>, z: seq<nat>, id: nat, x: int, y: int)
    requires |ws| == |vs| && Ids(z, |ws|) && id < |ws|
    requires forall k :: 0 <= k < |ws| && k != id ==> ws[k] == vs[k]
    requires !ws[id].Covers(x, y) && !vs[id].Covers(x, y)
    ensures Top(ws, z, x, y) == Top(vs, z, x, y)
    decreases |z|
  {
    if z != [] {
      TopUnseen(ws, vs, z[..|z| - 1], id, x, y);
    }
  }

  /** A new topmost window shows only where it lies. */
  lemma TopAppend(ws: seq<Window>, vs: seq<Window>, z: seq<nat>, id: nat, x: int, y: int)
    requires Ids(z, |ws|) && id == |ws| && |vs| == |ws| + 1 && vs[..id] == ws && !vs[id].Covers(x, y)
    ensures Top(vs, z + [id], x, y) == Top(ws, z, x, y)
  {
    TopConcat(vs, z, [id], x, y);
    TopPrefix(ws, vs, z, x, y);
  }

  lemma {:induction false} TopPrefix(ws: seq<Window>, vs: seq<Window>, z: seq<nat>, x: int, y: int)
    requires Ids(z, |ws|) && ws <= vs
    ensures Top(vs, z, x, y) == Top(ws, z, x, y)
    decreases |z|
  {
    if z != [] { TopPrefix(ws, vs, z[..|z| - 1], x, y); }
  }

  /** The stacking order with position `p` taken out and put on top. */
  function Raised(z: seq<nat>, p: nat): seq<nat>
    requires p < |z|
  {
    z[..p] + z[p + 1..] + [z[p]]
  }

  lemma RaisedPermutes(z: seq<nat>, p: nat, n: nat)
    requires p < |z| && Ids(z, n) && Full(z, n)
    ensures Ids(Raised(z, p), n) && Full(Raised(z, p), n) && |Raised(z, p)| == |z|
    ensures multiset(Raised(z, p)) == multiset(z)
  {
    assert z == z[..p] + [z[p]] + z[p + 1..];
    forall id | 0 <= id < n ensures id in Raised(z, p) {
      assert id in z && id in multiset(z);
    }
  }

  /** A full stacking order names each window once. */
  lemma FullIsDistinct(z: seq<nat>, n: nat)
    requires |z| == n && Ids(z, n) && Full(z, n)
    ensures Distinct(z)
  {
    SpanSize(0, n);
    forall i, j | 0 <= i < j < |z| ensures z[i] != z[j] {
      if z[i] == z[j] {
        var rest := z[..j] + z[j + 1..];
        forall id | id in Span(0, n) ensures id in rest {
          assert id in z;
          var k :| 0 <= k < |z| && z[k] == id;
          assert id == rest[if k < j then k else if k == j then i else k - 1];
        }
        SubsetSize(Span(0, n), Elements(rest));
        ElementsSize(rest);
      }
    }
  }

  /** No two windows, nor a window and the panel, share a surface or its pixels. */
  ghost predicate Apart(ws: seq<Window>, p: Surface?) {
    && (forall i, j :: 0 <= i < j < |ws| ==> Unshared(ws[i].surface, ws[j].surface))
    && (forall i :: 0 <= i < |ws| && p != null ==> Unshared(ws[i].surface, p))
  }

  ghost predicate Unshared(s: Surface, t: Surface) {
    s != t && s.pixels != t.pixels
  }

  lemma ApartAppend(ws: seq<Window>, p: Surface?, w: Window)
    requires Apart(ws, p) && (forall i :: 0 <= i < |ws| ==> Unshared(ws[i].surface, w.surface))
    requires p != null ==> Unshared(w.surface, p)
    ensures Apart(ws + [w], p)
  {}

  /** The search loop of the raise; a valid stacking order holds every window. */
  method FindLayer(z: seq<nat>, id: nat) returns (position: nat)
    requires id in z
    ensures position < |z| && z[position] == id
  {
    position := 0;
    while z[position] != id
      invariant position < |z| && id !in z[..position]
      decreases |z| - position
    {
      assert z == z[..position] + [z[position]] + z[position + 1..];
      position := position + 1;
    }
  }

  /** The hardware framebuffer: rows of `pixels.Length1` entries, `width` of them visible. */
  class Framebuffer {
    const width: nat
    const height: nat
    const usable: bool
    const pixels: array2<nat>

    ghost predicate Valid() {
      pixels.Length0 == height && width <= pixels.Length1
    }

    constructor (width: nat, height: nat, pitch: nat, usable: bool)
      requires width <= pitch
      ensures Valid() && this.width == width && this.height == height && this.usable == usable && fresh(pixels)
    {
      this.width, this.height, this.usable := width, height, usable;
      pixels := new nat[height, pitch];
    }

    predicate Visible(x: int, y: int) { 0 <= x < width && 0 <= y < height }

    method PutPixel(x: nat, y: nat, packed: nat)
      requires Valid()
      modifies pixels
      ensures forall px, py :: 0 <= px < pixels.Length1 && 0 <= py < height ==>
        pixels[py, px] == if usable && px == x < width && py == y then packed else old(pixels[py, px])
    {
      if !usable || x >= width || y >= height { return; }
      pixels[y, x] := packed;
    }
  }

  class Compositor {
    const width: nat
    const height: nat
    const workHeight: nat
    const background: nat
    const screen: Framebuffer
    var windows: seq<Window>
    var zOrder: seq<nat>
    var panel: Surface?
    var panelY: nat
    var damage: seq<Rect>
    var frameCount: nat
    var damagePixels: nat
    var lastDamageCount: nat

    /** What compositor_validate checks, and that the damage list stays on the screen. */
    ghost predicate Valid()
      reads this`windows, this`zOrder, this`panel, this`panelY, this`damage
    {
      Geometry() && Bounded(damage, width, height)
    }

    ghost predicate Geometry()
      reads this`windows, this`zOrder, this`panel, this`panelY
    {
      && 0 < width && 0 < height && 0 < workHeight <= height
      && |windows| <= MAX_WINDOWS && |zOrder| == |windows| && Ids(zOrder, |windows|) && Full(zOrder, |windows|)
      && (forall i :: 0 <= i < |windows| ==> Fits(windows[i]))
      && (panel != null ==> panel.Shaped() && panel.width == width && panelY + panel.height <= height)
      && screen.Valid() && screen.pixels !in Buffers()
    }

    ghost predicate Fits(w: Window) {
      w.surface.Shaped() && w.x + w.surface.width <= width && w.y + w.surface.height <= workHeight
    }

    ghost function Shown(): set<Surface>
      reads this`windows, this`panel
    {
      (set w | w in windows :: w.surface) + (if panel != null then {panel} else {})
    }

    ghost function Buffers(): set<object>
      reads this`windows, this`panel
    {
      set s | s in Shown() :: s.pixels
    }

    ghost predicate PanelAt(y: int)
      reads this`panel, this`panelY
    {
      panel != null && panelY <= y < panelY + panel.height
    }

    /** Whose pixel a screen position shows. */
    ghost function SourceAt(x: int, y: int): (r: Source)
      requires Geometry()
      reads this`windows, this`zOrder, this`panel, this`panelY
      ensures r.FromWindow? ==> r.id < |windows| && windows[r.id].Covers(x, y)
      ensures r.FromPanel? <==> PanelAt(y)
    {
      if PanelAt(y) then FromPanel
      else match Top(windows, zOrder, x, y)
        case Some(id) => FromWindow(id)
        case None => Background
    }

    /** The pixel a full redraw would put at a position. */
    ghost function Composed(x: nat, y: nat): nat
      requires Geometry()
      reads this`windows, this`zOrder, this`panel, this`panelY, Buffers()
    {
      match SourceAt(x, y)
      case FromPanel => panel.GetPixel(x, y - panelY)
      case FromWindow(id) =>
        assert windows[id] in windows;
        windows[id].surface.GetPixel(x - windows[id].x, y - windows[id].y)
      case Background => background
    }

    /** The surface a position shows has been drawn on there and the damage not yet taken. */
    ghost predicate DirtyAt(x: nat, y: nat)
      requires Geometry()
      reads this`windows, this`zOrder, this`panel, this`panelY, Shown()
    {
      match SourceAt(x, y)
      case FromPanel => panel.dirty && panel.damage.Has(x, y - panelY)
      case FromWindow(id) =>
        assert windows[id] in windows;
        windows[id].surface.dirty && windows[id].surface.damage.Has(x - windows[id].x, y - windows[id].y)
      case Background => false
    }

    ghost predicate Settled(x: nat, y: nat)
      requires Valid() && screen.Visible(x, y)
      reads this`windows, this`zOrder, this`panel, this`panelY, this`damage, Buffers(), Shown(), screen.pixels
    {
      screen.pixels[y, x] == Composed(x, y) || Covered(damage, x, y) || DirtyAt(x, y)
    }

    /** Every screen pixel is right, or damaged, or under a dirty spot of the surface it shows. */
    ghost predicate Current()
      requires Valid()
      reads this`windows, this`zOrder, this`panel, this`panelY, this`damage, Buffers(), Shown(), screen.pixels
    {
      CurrentIn(3)
    }

    /** Current, n steps away from its body. */
    ghost predicate CurrentIn(n: nat)
      requires Valid()
      reads this`windows, this`zOrder, this`panel, this`panelY, this`damage, Buffers(), Shown(), screen.pixels
      decreases n
    {
      if n > 0 then CurrentIn(n - 1)
      else forall x: nat, y: nat :: x < width && y < height && screen.Visible(x, y) ==> Settled(x, y)
    }

    lemma Unfold()
      requires Valid()
      ensures Current() <==> CurrentIn(0)
    {
      assert CurrentIn(1) == CurrentIn(0);
      assert CurrentIn(2) == CurrentIn(1);
    }

    twostate lemma UnfoldOld()
      requires old(Valid())
      ensures old(Current()) <==> old(CurrentIn(0))
    {
      assert old(CurrentIn(1)) == old(CurrentIn(0));
      assert old(CurrentIn(2)) == old(CurrentIn(1));
    }

    constructor (width: nat, height: nat, workHeight: nat, background: nat, screen: Framebuffer)
      requires 0 < width && 0 < height && 0 < workHeight <= height && screen.Valid()
      ensures Valid() && windows == [] && zOrder == [] && panel == null && damage == []
      ensures this.width == width && this.height == height && this.workHeight == workHeight
      ensures this.background == background && this.screen == screen
    {
      this.screen := screen;
      this.width, this.height, this.workHeight, this.background := width, height, workHeight, background;
      windows, zOrder, panel, panelY, damage := [], [], null, 0, [];
      frameCount, damagePixels, lastDamageCount := 0, 0, 0;
    }

    /** Adds a rectangle to the damage list: merged into the first that touches, or the whole screen on overflow. */
    method Damage(x: nat, y: nat, w: nat, h: nat)
      requires Valid()
      modifies this`damage
      ensures Bounded(damage, width, height) && damage == AddDamage(old(damage), Rect(x, y, w, h), width, height)
      ensures forall px, py ::
        Covered(old(damage), px, py) || (Rect(x, y, w, h).Has(px, py) && px < width && py < height) ==>
        Covered(damage, px, py)
    {
      AddDamageCovers(damage, Rect(x, y, w, h), width, height);
      Record(x, y, w, h);
    }

    method Record(x: nat, y: nat, w: nat, h: nat)
      requires |damage| <= MAX_DAMAGE
      modifies this`damage
      ensures damage == AddDamage(old(damage), Rect(x, y, w, h), width, height)
    {
      if x >= width || y >= height { return; }
      var cw, ch := Min(w, width - x), Min(h, height - y);
      if cw == 0 || ch == 0 { return; }
      var incoming := Rect(x, y, cw, ch);
      var i := FindTouch(damage, incoming);
      if i < |damage| {
        var current := damage[i];
        var left, top := Min(current.x, x), Min(current.y, y);
        var right, bottom := Max(current.x + current.width, x + cw), Max(current.y + current.height, y + ch);
        damage := damage[i := Rect(left, top, right - left, bottom - top)];
      } else if |damage| == MAX_DAMAGE {
        damage := [Rect(0, 0, width, height)];
      } else {
        damage := damage + [incoming];
      }
    }

    method DamageAll()
      requires Valid()
      modifies this`damage
      ensures Valid() && damage == [Rect(0, 0, width, height)] && Current()
    {
      damage := [Rect(0, 0, width, height)];
      assert damage[0] in damage;
      Unfold();
    }

    /** A position shows the same place of the same surface as before. */
    twostate predicate SameView(x: nat, y: nat)
      requires old(Valid()) && Valid()
      reads this
    {
      && SourceAt(x, y) == old(SourceAt(x, y))
      && (SourceAt(x, y).FromPanel? ==> panel == old(panel) && panelY == old(panelY))
      && (SourceAt(x, y).FromWindow? ==>
            var w, v := windows[SourceAt(x, y).id], old(windows[SourceAt(x, y).id]);
            w.surface == v.surface && w.x == v.x && w.y == v.y)
    }

    /** A change of geometry that damages every position whose view it alters keeps the screen current. */
    twostate lemma ViewKept()
      requires old(Valid()) && Valid() && old(Current())
      requires forall s :: s in old(Shown()) ==> unchanged(s) && unchanged(s.pixels)
      requires unchanged(screen.pixels)
      requires forall x, y :: Covered(old(damage), x, y) ==> Covered(damage, x, y)
      requires forall x: nat, y: nat :: x < width && y < height && !Covered(damage, x, y) ==> SameView(x, y)
      ensures Current()
    {
      UnfoldOld();
      Unfold();
      forall x: nat, y: nat | x < width && y < height && screen.Visible(x, y) ensures Settled(x, y) {
        if !Covered(damage, x, y) {
          assert SameView(x, y) && old(Settled(x, y));
          if SourceAt(x, y).FromWindow? {
            assert old(windows[SourceAt(x, y).id] in windows);
          }
        }
      }
    }

    /** One window may move, show or hide as long as its old and its new area are damaged. */
    twostate lemma WindowChanged(id: nat)
      requires old(Valid()) && Valid() && old(Current())
      requires |windows| == old(|windows|) && id < |windows|
      requires windows == old(windows)[id := windows[id]] && windows[id].surface == old(windows)[id].surface
      requires zOrder == old(zOrder) && panel == old(panel) && panelY == old(panelY)
      requires forall s :: s in old(Shown()) ==> unchanged(s) && unchanged(s.pixels)
      requires unchanged(screen.pixels)
      requires forall x, y :: Covered(old(damage), x, y) ==> Covered(damage, x, y)
      requires forall x, y :: windows[id].Covers(x, y) || old(windows[id]).Covers(x, y) ==> Covered(damage, x, y)
      ensures Current()
    {
      forall px: nat, py: nat | px < width && py < height && !Covered(damage, px, py) ensures SameView(px, py) {
        TopUnseen(old(windows), windows, zOrder, id, px, py);
      }
      ViewKept();
    }

    twostate lemma WindowAdded(id: nat)
      requires old(Valid()) && Valid() && old(Current())
      requires id == old(|windows|) && |windows| == id + 1
      requires windows[..id] == old(windows) && zOrder == old(zOrder) + [id]
      requires panel == old(panel) && panelY == old(panelY)
      requires forall s :: s in old(Shown()) ==> unchanged(s) && unchanged(s.pixels)
      requires unchanged(screen.pixels)
      requires forall x, y :: Covered(old(damage), x, y) || windows[id].Covers(x, y) ==> Covered(damage, x, y)
      ensures Current()
    {
      forall px: nat, py: nat | px < width && py < height && !Covered(damage, px, py) ensures SameView(px, py) {
        TopAppend(old(windows), windows, old(zOrder), id, px, py);
      }
      ViewKept();
    }

    method AddWindow(surface: Surface, x: nat, y: nat) returns (ok: bool, id: nat)
      requires Valid() && surface.Shaped() && surface.pixels != screen.pixels
      modifies this`windows, this`zOrder, this`damage
      ensures Valid() && (old(Current()) ==> Current())
      ensures ok <==> old(|windows|) < MAX_WINDOWS && surface.width <= width && surface.height <= workHeight
      ensures !ok ==> unchanged(this)
      ensures ok ==> id == old(|windows|) && zOrder == old(zOrder) + [id]
      ensures ok ==>
        var px, py := Placed(x, surface.width, width), Placed(y, surface.height, workHeight);
        windows == old(windows) + [Window(surface, px, py, true)]
      ensures ok ==> damage == AddDamage(old(damage), windows[id].Area(), width, height)
    {
      id := 0;
      if |windows| >= MAX_WINDOWS || surface.width > width || surface.height > workHeight { return false, id; }
      var cx, cy := Placed(x, surface.width, width), Placed(y, surface.height, workHeight);
      id := Append(surface, cx, cy);
      Damage(cx, cy, surface.width, surface.height);
      if old(Current()) { WindowAdded(id); }
      ok := true;
    }

    method Append(surface: Surface, x: nat, y: nat) returns (id: nat)
      requires Valid() && surface.pixels != screen.pixels
      requires |windows| < MAX_WINDOWS && Fits(Window(surface, x, y, true))
      modifies this`windows, this`zOrder
      ensures Valid() && id == old(|windows|)
      ensures windows == old(windows) + [Window(surface, x, y, true)] && zOrder == old(zOrder) + [id]
    {
      id := |windows|;
      windows := windows + [Window(surface, x, y, true)];
      zOrder := zOrder + [id];
    }

    /** Puts a window at a new place and damages both places. */
    method Relocate(id: nat, x: nat, y: nat)
      requires Valid() && id < |windows| && Fits(windows[id].(x := x, y := y))
      modifies this`windows, this`damage
      ensures Valid() && windows == old(windows)[id := old(windows)[id].(x := x, y := y)]
      ensures forall px, py :: Covered(old(damage), px, py) ==> Covered(damage, px, py)
      ensures forall px, py :: windows[id].Covers(px, py) || old(windows[id]).Covers(px, py) ==> Covered(damage, px, py)
    {
      var w := windows[id];
      Damage(w.x, w.y, w.surface.width, w.surface.height);
      windows := windows[id := w.(x := x, y := y)];
      Damage(x, y, w.surface.width, w.surface.height);
    }

    method MoveWindow(id: nat, x: nat, y: nat) returns (ok: bool)
      requires Valid()
      modifies this`windows, this`damage
      ensures Valid() && (old(Current()) ==> Current())
      ensures ok <==> id < |windows| && old(windows)[id].visible
      ensures !ok ==> unchanged(this)
      ensures ok ==> var w := old(windows)[id];
        var px, py := Placed(x, w.surface.width, width), Placed(y, w.surface.height, workHeight);
        windows == old(windows)[id := w.(x := px, y := py)]
    {
      if id >= |windows| { return false; }
      var w := windows[id];
      if !w.visible { return false; }
      var cx, cy := Placed(x, w.surface.width, width), Placed(y, w.surface.height, workHeight);
      if cx == w.x && cy == w.y { return true; }
      Relocate(id, cx, cy);
      if old(Current()) { WindowChanged(id); }
      return true;
    }

    method SetWindowVisible(id: nat, visible: bool) returns (ok: bool)
      requires Valid()
      modifies this`windows, this`damage
      ensures Valid() && (old(Current()) ==> Current())
      ensures ok <==> id < |windows|
      ensures ok ==> windows == old(windows)[id := old(windows)[id].(visible := visible)]
      ensures !ok ==> unchanged(this)
    {
      if id >= |windows| { return false; }
      var w := windows[id];
      if w.visible == visible { return true; }
      Damage(w.x, w.y, w.surface.width, w.surface.height);
      windows := windows[id := w.(visible := visible)];
      if old(Current()) { WindowChanged(id); }
      return true;
    }

    /** Brings a window to the top of the stacking order, keeping the order of the others. */
    method RaiseWindow(id: nat) returns (ok: bool)
      requires Valid()
      modifies this`zOrder, this`damage
      ensures Valid() && (old(Current()) ==> Current())
      ensures ok <==> id < |windows|
      ensures !ok ==> unchanged(this)
      ensures ok ==> exists p :: 0 <= p < old(|zOrder|) && old(zOrder)[p] == id && zOrder == Raised(old(zOrder), p)
    {
      if id >= |windows| { return false; }
      var position := FindLayer(zOrder, id);
      if position + 1 == |windows| {
        assert Raised(zOrder, position) == zOrder;
        return true;
      }
      RaiseLayer(position);
      return true;
    }

    /** The shift and the damage of a raise. */
    method RaiseLayer(position: nat)
      requires Valid() && position + 1 < |zOrder|
      modifies this`zOrder, this`damage
      ensures Valid() && zOrder == Raised(old(zOrder), position)
      ensures old(Current()) ==> Current()
    {
      RaisedPermutes(zOrder, position, |windows|);
      var w := windows[zOrder[position]];
      ShiftUp(position);
      Damage(w.x, w.y, w.surface.width, w.surface.height);
      if old(Current()) { WindowRaised(position); }
    }

    /** The shift loop of the raise. */
    method ShiftUp(position: nat)
      requires Valid() && position + 1 < |zOrder|
      modifies this`zOrder
      ensures zOrder == Raised(old(zOrder), position)
    {
      var id := zOrder[position];
      for i := position to |zOrder| - 1
        invariant |zOrder| == old(|zOrder|)
        invariant forall j :: 0 <= j < |zOrder| ==> zOrder[j] == old(zOrder)[if position <= j < i then j + 1 else j]
      {
        zOrder := zOrder[i := zOrder[i + 1]];
      }
      zOrder := zOrder[|zOrder| - 1 := id];
      ghost var goal := Raised(old(zOrder), position);
      assert forall j :: 0 <= j < |goal| ==> goal[j] == zOrder[j];
    }

    twostate lemma WindowRaised(p: nat)
      requires old(Valid()) && Valid() && old(Current())
      requires p < old(|zOrder|) && zOrder == Raised(old(zOrder), p)
      requires windows == old(windows) && panel == old(panel) && panelY == old(panelY)
      requires forall s :: s in old(Shown()) ==> unchanged(s) && unchanged(s.pixels)
      requires unchanged(screen.pixels)
      requires forall x, y :: Covered(old(damage), x, y) || windows[old(zOrder[p])].Covers(x, y) ==>
        Covered(damage, x, y)
      ensures Current()
    {
      var z, id := old(zOrder), old(zOrder[p]);
      assert z == z[..p] + [id] + z[p + 1..];
      forall x: nat, y: nat | x < width && y < height && !Covered(damage, x, y) ensures SameView(x, y) {
        RaiseElsewhere(windows, z[..p], id, z[p + 1..], x, y);
      }
      ViewKept();
    }

    /**
    Installs a panel and damages its area. The screen stays current unless an earlier panel
    showed rows that the new one leaves, for those are not damaged.
    */
    method SetPanel(surface: Surface, y: nat) returns (ok: bool)
      requires Valid() && surface.Shaped() && surface.pixels != screen.pixels
      modifies this`panel, this`panelY, this`damage
      ensures Valid()
      ensures ok <==> surface.width == width && y < height && surface.height <= height - y
      ensures !ok ==> unchanged(this)
      ensures ok ==> panel == surface && panelY == y
      ensures ok ==> damage == AddDamage(old(damage), Rect(0, y, width, surface.height), width, height)
      ensures old(Current()) && (forall row: nat :: old(PanelAt(row)) ==> PanelAt(row)) ==> Current()
    {
      if surface.width != width || y >= height || surface.height > height - y { return false; }
      panel, panelY := surface, y;
      Damage(0, y, surface.width, surface.height);
      if old(Current()) && forall row: nat :: old(PanelAt(row)) ==> PanelAt(row) {
        forall px: nat, py: nat | px < width && py < height && !Covered(damage, px, py) ensures SameView(px, py) {
          assert !PanelAt(py) && !old(PanelAt(py));
        }
        ViewKept();
      }
      return true;
    }

    // ------------------------------------------------------------- presenting

    /** No surface is shown twice and each has its own pixels. */
    ghost predicate Separate()
      reads this`windows, this`panel
    {
      Apart(windows, panel)
    }

    ghost predicate SurfacesValid()
      reads this`windows, this`panel, Shown()
    {
      forall s :: s in Shown() ==> s.Valid()
    }

    /** Whether nothing has been drawn since the last presentation. */
    ghost predicate Clean()
      reads this`windows, this`panel, Shown()
    {
      forall s :: s in Shown() ==> !s.dirty
    }

    ghost predicate SameScene(ws: seq<Window>, z: seq<nat>, p: Surface?, py: nat)
      reads this`windows, this`zOrder, this`panel, this`panelY
    {
      windows == ws && zOrder == z && panel == p && panelY == py
    }

    /** Taking the damage of one window's surface is safe once its place on the screen is damaged. */
    twostate lemma WindowTaken(id: nat)
      requires old(Valid()) && Valid() && old(Current()) && Separate() && id < |windows|
      requires old(SameScene(windows, zOrder, panel, panelY))
      requires SameScene(old(windows), old(zOrder), old(panel), old(panelY))
      requires forall s :: s in Shown() ==> unchanged(s.pixels) && (s != windows[id].surface ==> unchanged(s))
      requires unchanged(screen.pixels)
      requires forall x, y :: Covered(old(damage), x, y) ==> Covered(damage, x, y)
      requires windows[id].visible && old(windows[id].surface.dirty) ==>
        forall x, y ::
          x < width && y < height && old(windows[id].surface.damage).Has(x - windows[id].x, y - windows[id].y) ==>
            Covered(damage, x, y)
      ensures Current()
    {
      UnfoldOld();
      Unfold();
      forall x: nat, y: nat | x < width && y < height && screen.Visible(x, y) ensures Settled(x, y) {
        assert old(Settled(x, y));
        var src := SourceAt(x, y);
        if src.FromWindow? {
          assert windows[src.id] in windows;
          assert src.id != id ==> windows[src.id].surface != windows[id].surface;
        }
      }
    }

    twostate lemma PanelTaken()
      requires old(Valid()) && Valid() && old(Current()) && Separate() && panel != null
      requires old(SameScene(windows, zOrder, panel, panelY))
      requires SameScene(old(windows), old(zOrder), old(panel), old(panelY))
      requires forall s :: s in Shown() ==> unchanged(s.pixels) && (s != panel ==> unchanged(s))
      requires unchanged(screen.pixels)
      requires forall x, y :: Covered(old(damage), x, y) ==> Covered(damage, x, y)
      requires old(panel.dirty) ==>
        forall x, y :: x < width && y < height && old(panel.damage).Has(x, y - panelY) ==> Covered(damage, x, y)
      ensures Current()
    {
      UnfoldOld();
      Unfold();
      forall x: nat, y: nat | x < width && y < height && screen.Visible(x, y) ensures Settled(x, y) {
        assert old(Settled(x, y));
        var src := SourceAt(x, y);
        if src.FromWindow? { assert windows[src.id] in windows; }
      }
    }

    /** Moves the damage of every surface into the damage list. */
    method CollectSurfaceDamage()
      requires Valid() && SurfacesValid()
      modifies this`damage, Shown()
      ensures Valid() && SurfacesValid() && Clean()
      ensures old(Current() && Separate()) ==> Current()
      ensures old(Clean()) ==> damage == old(damage)
    {
      CollectWindows();
      if panel != null {
        CollectPanel();
      }
      AllClean();
    }

    lemma AllClean()
      requires forall i :: 0 <= i < |windows| ==> !windows[i].surface.dirty
      requires panel != null ==> !panel.dirty
      ensures Clean()
    {}

    method CollectWindows()
      requires Valid() && SurfacesValid()
      modifies this`damage, set w | w in windows :: w.surface
      ensures Bounded(damage, width, height) && SurfacesValid()
      ensures forall i :: 0 <= i < |windows| ==> !windows[i].surface.dirty
      ensures old(Current() && Separate()) ==> Current()
      ensures old(Clean()) ==> Clean() && damage == old(damage)
    {
      for id := 0 to |windows|
        invariant Bounded(damage, width, height) && SurfacesValid()
        invariant old(Current() && Separate()) ==> Current()
        invariant forall j :: 0 <= j < id ==> !windows[j].surface.dirty
        invariant old(Clean()) ==> Clean() && damage == old(damage)
      {
        CollectWindow(id);
      }
    }

    method CollectWindow(id: nat)
      requires Valid() && SurfacesValid() && id < |windows|
      modifies this`damage, windows[id].surface
      ensures Bounded(damage, width, height) && SurfacesValid() && !windows[id].surface.dirty
      ensures forall i :: 0 <= i < |windows| && !old(windows[i].surface.dirty) ==> !windows[i].surface.dirty
      ensures old(Current() && Separate()) ==> Current()
      ensures old(Clean()) ==> Clean() && damage == old(damage)
    {
      assert windows[id] in windows;
      TakeWindow(id);
      if old(Current() && Separate()) { WindowTaken(id); }
    }

    /** The damage of a window's surface becomes damage of its place on the screen. */
    method TakeWindow(id: nat)
      requires Valid() && id < |windows| && windows[id].surface.Valid()
      modifies this`damage, windows[id].surface
      ensures Bounded(damage, width, height) && windows[id].surface.Valid() && !windows[id].surface.dirty
      ensures forall x, y :: Covered(old(damage), x, y) ==> Covered(damage, x, y)
      ensures windows[id].visible && old(windows[id].surface.dirty) ==>
        forall x, y ::
          x < width && y < height && old(windows[id].surface.damage).Has(x - windows[id].x, y - windows[id].y) ==>
            Covered(damage, x, y)
      ensures !old(windows[id].surface.dirty) ==> damage == old(damage)
    {
      var w := windows[id];
      var taken, r := w.surface.TakeDamage();
      if taken && w.visible {
        Damage(w.x + r.x, w.y + r.y, r.width, r.height);
      }
    }

    method CollectPanel()
      requires Valid() && SurfacesValid() && panel != null
      modifies this`damage, panel
      ensures Bounded(damage, width, height) && panel.Valid() && !panel.dirty
      ensures old(Current() && Separate()) ==> Current()
      ensures !old(panel.dirty) ==> damage == old(damage)
    {
      var taken, r := panel.TakeDamage();
      if taken {
        Damage(r.x, panelY + r.y, r.width, r.height);
      }
      if old(Current() && Separate()) { PanelTaken(); }
    }

    /** The value of the topmost of the first `n` layers, or the background. */
    ghost function Layered(n: nat, x: nat, y: nat): nat
      requires Geometry() && n <= |zOrder|
      reads this`windows, this`zOrder, this`panel, this`panelY, Buffers()
    {
      match Top(windows, zOrder[..n], x, y)
      case Some(id) =>
        assert windows[id] in windows;
        windows[id].surface.GetPixel(x - windows[id].x, y - windows[id].y)
      case None => background
    }

    /** Painting the layers bottom up gives the pixel of the topmost one. */
    method ComposedPixel(x: nat, y: nat) returns (pixel: nat)
      requires Valid()
      ensures pixel == Composed(x, y)
    {
      pixel := background;
      for i := 0 to |windows|
        invariant pixel == Layered(i, x, y)
      {
        var w := windows[zOrder[i]];
        assert w in windows;
        assert zOrder[..i + 1][..i] == zOrder[..i];
        if w.visible && x >= w.x && y >= w.y && x < w.x + w.surface.width && y < w.y + w.surface.height {
          pixel := w.surface.GetPixel(x - w.x, y - w.y);
        }
      }
      assert zOrder[..|windows|] == zOrder;
      if panel != null && y >= panelY && y < panelY + panel.height {
        pixel := panel.GetPixel(x, y - panelY);
      }
    }

    /** Repaints one damaged rectangle. */
    method Paint(d: Rect)
      requires Valid() && screen.usable
      modifies screen.pixels
      ensures forall x: nat, y: nat :: screen.Visible(x, y) ==>
        screen.pixels[y, x] == if d.Has(x, y) then Composed(x, y) else old(screen.pixels[y, x])
    {
      for y := d.y to d.y + d.height
        invariant forall px: nat, py: nat :: screen.Visible(px, py) ==>
          screen.pixels[py, px] == if d.Has(px, py) && py < y then Composed(px, py) else old(screen.pixels[py, px])
      {
        PaintRow(d.x, d.width, y);
      }
    }

    method PaintRow(left: nat, w: nat, y: nat)
      requires Valid() && screen.usable
      modifies screen.pixels
      ensures forall px: nat, py: nat :: screen.Visible(px, py) ==>
        screen.pixels[py, px] ==
          if py == y && left <= px < left + w then Composed(px, py) else old(screen.pixels[py, px])
    {
      for x := left to left + w
        invariant forall px: nat, py: nat :: screen.Visible(px, py) ==>
          screen.pixels[py, px] == if py == y && left <= px < x then Composed(px, py) else old(screen.pixels[py, px])
      {
        var pixel := ComposedPixel(x, y);
        screen.PutPixel(x, y, pixel);
      }
    }

    /** Every screen pixel is the one a full redraw would put there. */
    ghost predicate Exact()
      requires Geometry()
      reads this`windows, this`zOrder, this`panel, this`panelY, Buffers(), screen.pixels
    {
      forall x: nat, y: nat :: x < width && y < height && screen.Visible(x, y) ==> screen.pixels[y, x] == Composed(x, y)
    }

    /** Damage list and counters do not matter to what the screen should show. */
    twostate lemma ExactKept()
      requires old(Geometry()) && Geometry() && old(Exact())
      requires SameScene(old(windows), old(zOrder), old(panel), old(panelY))
      requires forall s :: s in Shown() ==> unchanged(s.pixels)
      requires unchanged(screen.pixels)
      ensures Exact()
    {
      forall x: nat, y: nat | x < width && y < height && screen.Visible(x, y)
        ensures screen.pixels[y, x] == Composed(x, y)
      {
        assert old(Composed(x, y)) == Composed(x, y);
      }
    }

    lemma ExactIsCurrent()
      requires Valid() && Exact()
      ensures Current()
    {
      Unfold();
    }

    /**
    Incremental redraw equals full redraw: afterwards every screen pixel is the composed one.
    Positions that are neither damaged nor dirty are not touched.
    */
    method Present() returns (ok: bool)
      requires Valid() && SurfacesValid()
      modifies this`damage, this`frameCount, this`damagePixels, this`lastDamageCount, Shown(), screen.pixels
      ensures Valid() && SurfacesValid()
      ensures ok <==> screen.usable
      ensures ok ==> Clean() && damage == []
      ensures ok && old(Current() && Separate()) ==> Exact()
      ensures old(Current() && Separate()) ==> Current()
      ensures ok && old(Clean()) ==> forall x: nat, y: nat :: screen.Visible(x, y) ==>
        screen.pixels[y, x] == if Covered(old(damage), x, y) then Composed(x, y) else old(screen.pixels[y, x])
    {
      if !screen.usable { return false; }
      CollectSurfaceDamage();
      Redraw();
      if old(Current() && Separate()) { ExactIsCurrent(); }
      return true;
    }

    /** The painting half of a presentation. */
    method Redraw()
      requires Valid() && Clean() && screen.usable
      modifies this`damage, this`frameCount, this`damagePixels, this`lastDamageCount, screen.pixels
      ensures damage == []
      ensures old(Current()) ==> Exact()
      ensures lastDamageCount == old(|damage|) && frameCount == old(frameCount) + if old(damage) == [] then 0 else 1
      ensures forall x: nat, y: nat :: screen.Visible(x, y) ==>
        screen.pixels[y, x] == if Covered(old(damage), x, y) then Composed(x, y) else old(screen.pixels[y, x])
    {
      if |damage| == 0 {
        if old(Current()) { SettledPixels(); }
        lastDamageCount := 0;
        return;
      }
      var presented := |damage|;
      var total := Repaint();
      Finish(presented, total);
    }

    /** The damage is presented; what the screen should show stays the same. */
    method Finish(presented: nat, total: nat)
      requires Geometry()
      modifies this`damage, this`frameCount, this`damagePixels, this`lastDamageCount
      ensures damage == [] && lastDamageCount == presented && frameCount == old(frameCount) + 1
      ensures damagePixels == old(damagePixels) + total
      ensures old(Exact()) ==> Exact()
      ensures forall x: nat, y: nat :: Composed(x, y) == old(Composed(x, y))
    {
      damage := [];
      lastDamageCount := presented;
      damagePixels := damagePixels + total;
      frameCount := frameCount + 1;
      if old(Exact()) { ExactKept(); }
    }

    /** Painting the damage of a current, clean screen makes it exact. */
    method Repaint() returns (total: nat)
      requires Valid() && Clean() && screen.usable
      modifies screen.pixels
      ensures old(Current()) ==> Exact()
      ensures forall x: nat, y: nat :: screen.Visible(x, y) ==>
        screen.pixels[y, x] == if Covered(damage, x, y) then Composed(x, y) else old(screen.pixels[y, x])
    {
      total := PaintAll();
      if old(Current()) { PaintedAll(); }
    }

    /** Repaints the whole damage list and counts the pixels. */
    method PaintAll() returns (total: nat)
      requires Valid() && screen.usable
      modifies screen.pixels
      ensures forall x: nat, y: nat :: screen.Visible(x, y) ==>
        screen.pixels[y, x] == if Covered(damage, x, y) then Composed(x, y) else old(screen.pixels[y, x])
    {
      total := 0;
      for i := 0 to |damage|
        invariant forall x: nat, y: nat :: screen.Visible(x, y) ==>
          screen.pixels[y, x] == if Covered(damage[..i], x, y) then Composed(x, y) else old(screen.pixels[y, x])
      {
        total := total + damage[i].width * damage[i].height;
        Paint(damage[i]);
        CoverStep(damage, i);
      }
      assert damage[..|damage|] == damage;
    }

    /** With nothing dirty and nothing damaged, a current screen is composed throughout. */
    lemma SettledPixels()
      requires Valid() && Current() && Clean() && damage == []
      ensures Exact()
    {
      Unfold();
      forall x: nat, y: nat | x < width && y < height && screen.Visible(x, y)
        ensures screen.pixels[y, x] == Composed(x, y)
      {
        assert Settled(x, y);
        if SourceAt(x, y).FromWindow? { assert windows[SourceAt(x, y).id] in windows; }
      }
    }

    twostate lemma PaintedAll()
      requires old(Valid()) && Valid() && old(Current()) && old(Clean())
      requires forall s :: s in old(Shown()) ==> unchanged(s) && unchanged(s.pixels)
      requires unchanged(this)
      requires forall x: nat, y: nat :: screen.Visible(x, y) ==>
        screen.pixels[y, x] == if Covered(damage, x, y) then Composed(x, y) else old(screen.pixels[y, x])
      ensures Exact()
    {
      UnfoldOld();
      forall x: nat, y: nat | x < width && y < height && screen.Visible(x, y)
        ensures screen.pixels[y, x] == Composed(x, y)
      {
        assert old(Settled(x, y));
        if SourceAt(x, y).FromWindow? { assert windows[SourceAt(x, y).id] in windows; }
      }
    }

    /** The window under a point, and where in it: the one whose pixel the screen shows there. */
    method WindowAt(x: nat, y: nat) returns (found: bool, id: nat, localX: nat, localY: nat)
      requires Valid()
      ensures found <==> x < width && y < workHeight && Top(windows, zOrder, x, y).Some?
      ensures found ==> id < |windows| && localX < windows[id].surface.width && localY < windows[id].surface.height
      ensures found && !PanelAt(y) ==>
        SourceAt(x, y) == FromWindow(id) && Composed(x, y) == windows[id].surface.pixels[localY, localX]
      ensures !found && !PanelAt(y) && x < width && y < workHeight ==> Composed(x, y) == background
    {
      found, id, localX, localY := false, 0, 0, 0;
      if x >= width || y >= workHeight { return; }
      var i := |windows|;
      assert zOrder[..i] == zOrder;
      while i > 0
        invariant i <= |windows| && Top(windows, zOrder, x, y) == Top(windows, zOrder[..i], x, y)
      {
        i := i - 1;
        var w := windows[zOrder[i]];
        assert zOrder[..i + 1][..i] == zOrder[..i];
        if w.visible && x >= w.x && y >= w.y && x < w.x + w.surface.width && y < w.y + w.surface.height {
          found, id, localX, localY := true, zOrder[i], x - w.x, y - w.y;
          return;
        }
      }
    }

    /** The panel shows at a position what the windows and the background would show there without it. */
    ghost predicate Transparent(x: nat, row: nat)
      requires Geometry() && PanelAt(row)
      reads this`windows, this`zOrder, this`panel, this`panelY, Buffers()
    {
      panel.GetPixel(x, row - panelY) == Layered(|zOrder|, x, row)
    }

    /**
    Exactly when replacing a panel on an exact, clean screen is repaired by the next presentation: on the rows
    the new panel leaves, the old panel shows what lies below it.
    */
    method ReplacePanel(surface: Surface, y: nat)
      requires Valid() && SurfacesValid() && Clean() && damage == [] && Exact() && screen.usable
      requires surface.Valid() && !surface.dirty && surface.pixels != screen.pixels
      requires surface.width == width && y < height && surface.height <= height - y
      modifies this, Shown(), surface, screen.pixels
      ensures Valid() && SurfacesValid() && Clean() && damage == [] && panel == surface && panelY == y
      ensures windows == old(windows) && zOrder == old(zOrder)
      ensures Exact() <==> forall x: nat, row: nat ::
        x < width && screen.Visible(x, row) && old(PanelAt(row)) && !(y <= row < y + surface.height) ==>
          old(Transparent(x, row))
    {
      var ok := SetPanel(surface, y);
      assert damage == [Rect(0, y, width, surface.height)] && damage[0] in damage;
      assert Clean();
      ok := Present();
      forall row: nat | !PanelAt(row) ensures forall x: nat :: Composed(x, row) == old(Layered(|zOrder|, x, row)) {
        PanelElsewhere(row);
      }
      PanelLeft();
    }

    /** A row without a panel shows the windows, whatever panel was there before. */
    twostate lemma PanelElsewhere(row: nat)
      requires old(Geometry()) && Geometry() && windows == old(windows) && zOrder == old(zOrder)
      requires !PanelAt(row)
      requires forall w :: w in windows ==> unchanged(w.surface.pixels)
      ensures forall x: nat :: Composed(x, row) == old(Layered(|zOrder|, x, row))
    {
      assert zOrder[..|zOrder|] == zOrder;
      forall x: nat ensures Composed(x, row) == old(Layered(|zOrder|, x, row)) {
        if SourceAt(x, row).FromWindow? { assert windows[SourceAt(x, row).id] in windows; }
      }
    }

    /** Outside the new panel the screen is as it was, and it was exact for the old panel. */
    twostate lemma PanelLeft()
      requires old(Geometry()) && Geometry() && old(Exact()) && windows == old(windows) && zOrder == old(zOrder)
      requires forall x: nat, row: nat :: x < width && screen.Visible(x, row) ==>
        screen.pixels[row, x] == if PanelAt(row) then Composed(x, row) else old(screen.pixels[row, x])
      requires forall row: nat :: !PanelAt(row) ==> forall x: nat :: Composed(x, row) == old(Layered(|zOrder|, x, row))
      requires panel != null
      ensures Exact() <==> forall x: nat, row: nat ::
        x < width && screen.Visible(x, row) && old(PanelAt(row)) && !PanelAt(row) ==> old(Transparent(x, row))
    {
      if Exact() {
        forall x: nat, row: nat | x < width && screen.Visible(x, row) && old(PanelAt(row)) && !PanelAt(row)
          ensures old(Transparent(x, row))
        {
          assert screen.pixels[row, x] == Composed(x, row) && old(screen.pixels[row, x] == Composed(x, row));
        }
      }
      if forall x: nat, row: nat ::
        x < width && screen.Visible(x, row) && old(PanelAt(row)) && !PanelAt(row) ==> old(Transparent(x, row))
      {
        forall x: nat, y: nat | x < width && y < height && screen.Visible(x, y)
          ensures screen.pixels[y, x] == Composed(x, y)
        {
          assert old(screen.pixels[y, x] == Composed(x, y));
          if !PanelAt(y) && !old(PanelAt(y)) { Unpanelled(y); }
        }
      }
    }

    /** Without a panel the composed pixel is that of all layers. */
    twostate lemma Unpanelled(row: nat)
      requires old(Geometry()) && !old(PanelAt(row))
      ensures forall x: nat :: old(Composed(x, row)) == old(Layered(|zOrder|, x, row))
    {
      assert old(zOrder)[..old(|zOrder|)] == old(zOrder);
    }

    // ------------------------------------------------------------------- runs

    /** Honest drawing on any of the shown surfaces keeps the screen current. */
    twostate lemma DrawnHonestly()
      requires old(Valid()) && Valid() && old(Current())
      requires unchanged(this) && unchanged(screen.pixels)
      requires forall s :: s in Shown() ==> s.Honest()
      ensures Current()
    {
      UnfoldOld();
      Unfold();
      forall x: nat, y: nat | x < width && y < height && screen.Visible(x, y) ensures Settled(x, y) {
        assert old(Settled(x, y));
        match SourceAt(x, y)
        case FromPanel =>
          assert panel in Shown() && panel.Honest();
        case FromWindow(id) =>
          assert windows[id] in windows && windows[id].surface.Honest();
        case Background =>
      }
    }

    ghost predicate Running()
      reads this`windows, this`zOrder, this`panel, this`panelY, this`damage, Buffers(), Shown(), screen.pixels
    {
      Valid() && SurfacesValid() && Separate() && Current()
    }

    method Draw(target: Surface, stroke: Stroke)
      requires Running() && target in Shown()
      modifies target, target.pixels
      ensures Running()
    {
      target.Apply(stroke);
      forall s | s in Shown() ensures s.Honest() {
        if s != target {
          assert s.pixels != target.pixels;
        }
      }
      DrawnHonestly();
    }

    /** Every surface of the pool is sound and owns its pixels. */
    ghost predicate Pooled(pool: set<Surface>)
      reads this, pool
    {
      && Shown() <= pool
      && (forall s :: s in pool ==> s.Valid() && s.pixels != screen.pixels)
      && (forall s, t :: s in pool && t in pool && s != t ==> s.pixels != t.pixels)
    }

    /** One operation of a run; drawing on a window that does not exist does nothing. */
    method Do(op: Op, ghost pool: set<Surface>)
      requires Running() && Pooled(pool)
      requires op.Add? ==> op.surface in pool && op.surface !in Shown()
      modifies this, pool, set s | s in pool :: s.pixels, screen.pixels
      ensures Running() && Pooled(pool)
      ensures Shown() <= old(Shown()) + if op.Add? then {op.surface} else {}
    {
      match op
      case Add(surface, x, y) => AddApart(surface, x, y, pool);
      case Move(id, x, y) => Rearrange(op, pool);
      case Raise(id) => Rearrange(op, pool);
      case Show(id, visible) => Rearrange(op, pool);
      case Paint(id, stroke) =>
        if id < |windows| {
          assert windows[id] in windows;
          Draw(windows[id].surface, stroke);
        }
      case PaintPanel(stroke) =>
        if panel != null { Draw(panel, stroke); }
      case Flush =>
        var ok := Present();
    }

    /** The operations that change the arrangement of the windows only. */
    method Rearrange(op: Op, ghost pool: set<Surface>)
      requires Running() && Pooled(pool) && (op.Move? || op.Raise? || op.Show?)
      modifies this`windows, this`zOrder, this`damage
      ensures Running() && Pooled(pool) && Shown() == old(Shown())
    {
      var ok;
      if op.Move? {
        ok := MoveWindow(op.id, op.x, op.y);
        SameSurfaces(old(windows));
      } else if op.Raise? {
        ok := RaiseWindow(op.id);
      } else {
        ok := SetWindowVisible(op.id, op.visible);
        SameSurfaces(old(windows));
      }
    }

    lemma SameSurfaces(before: seq<Window>)
      requires |before| == |windows| && forall i :: 0 <= i < |windows| ==> windows[i].surface == before[i].surface
      ensures (set w | w in windows :: w.surface) == (set w | w in before :: w.surface)
    {}

    method AddApart(surface: Surface, x: nat, y: nat, ghost pool: set<Surface>)
      requires Running() && Pooled(pool) && surface in pool && surface !in Shown()
      modifies this`windows, this`zOrder, this`damage
      ensures Running() && Pooled(pool) && Shown() <= old(Shown()) + {surface}
    {
      NoneShared(surface, pool);
      var ok, id := AddWindow(surface, x, y);
      if ok {
        ApartAppend(old(windows), panel, windows[id]);
        OneMore(old(windows), windows[id]);
      }
    }

    lemma NoneShared(surface: Surface, pool: set<Surface>)
      requires Pooled(pool) && surface in pool && surface !in Shown()
      ensures forall i :: 0 <= i < |windows| ==> Unshared(windows[i].surface, surface)
      ensures panel != null ==> Unshared(surface, panel)
    {}

    lemma OneMore(before: seq<Window>, w: Window)
      requires windows == before + [w]
      ensures Shown() == (set v | v in before :: v.surface) + {w.surface} + if panel != null then {panel} else {}
    {}

    /**
    The run theorem: from any screen content, after a full damage and any script of additions,
    moves, raises, shows, hides, drawing and presentations, the final presentation leaves every
    screen pixel equal to the composed one. No script entry adds a surface that is already shown.
    */
    method Play(script: seq<Op>, ghost pool: set<Surface>)
      requires Valid() && SurfacesValid() && Separate() && Pooled(pool) && screen.usable
      requires forall i :: 0 <= i < |script| && script[i].Add? ==>
        script[i].surface in pool && script[i].surface !in Shown()
      requires forall i, j :: 0 <= i < j < |script| && script[i].Add? && script[j].Add? ==>
        script[i].surface != script[j].surface
      modifies this, pool, set s | s in pool :: s.pixels, screen.pixels
      ensures Valid() && Exact() && Clean() && damage == []
    {
      DamageAll();
      for i := 0 to |script|
        invariant Running() && Pooled(pool)
        invariant forall k :: i <= k < |script| && script[k].Add? ==> script[k].surface !in Shown()
      {
        Do(script[i], pool);
      }
      var ok := Present();
    }
  }

  /** An empty, presented screen of two rows. */
  method EmptyScreen() returns (c: Compositor)
    ensures fresh(c) && fresh(c.screen.pixels) && c.Valid() && c.damage == [] && c.Exact()
    ensures c.width == 1 && c.height == 2 && c.background == 0 && c.windows == [] && c.panel == null
    ensures c.screen.usable && c.screen.width == 1 && c.screen.height == 2
  {
    var screen := new Framebuffer(1, 2, 1, true);
    c := new Compositor(1, 2, 2, 0, screen);
    c.DamageAll();
    var ok := c.Present();
  }

  /** The same with a panel of colour 7 on the first row. */
  method PanelOnTop() returns (c: Compositor)
    ensures fresh(c) && fresh(c.screen.pixels) && c.Valid()
    ensures c.damage == [] && c.Exact() && c.width == 1 && c.height == 2
    ensures c.windows == [] && c.screen.usable && c.screen.width == 1 && c.screen.height == 2
    ensures c.panel != null && fresh(c.panel) && c.panel.Valid()
    ensures !c.panel.dirty && c.panelY == 0 && c.panel.height == 1
    ensures !c.Transparent(0, 0)
  {
    c := EmptyScreen();
    var panel := new Surface(1, 1);
    panel.pixels[0, 0] := 7;
    c.ReplacePanel(panel, 0);
  }

  /** That panel is replaced by one on the second row: its pixel stays, and no presentation repairs it. */
  method StalePanel() returns (c: Compositor)
    ensures c.Valid() && c.screen.usable && c.Clean() && c.damage == [] && !c.Exact()
  {
    c := PanelOnTop();
    var panel := new Surface(1, 1);
    assert c.PanelAt(0) && c.screen.Visible(0, 0) && !c.Transparent(0, 0);
    c.ReplacePanel(panel, 1);
  }

  datatype Op =
    | Add(surface: Surface, x: nat, y: nat)
    | Move(id: nat, x: nat, y: nat)
    | Raise(id: nat)
    | Show(id: nat, visible: bool)
    | Paint(id: nat, stroke: Stroke)
    | PaintPanel(stroke: Stroke)
    | Flush
}
