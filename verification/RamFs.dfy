/** The RAM file system: sixteen slots that refine a map from paths to bytes. */
module RamFs {
  import opened Common
  import opened Counting

  const FILES: nat := 16
  const PATH_CAPACITY: nat := 48
  const DATA_CAPACITY: nat := 1024
  const SLASH: nat := 0x2F
  const DOT: nat := 0x2E

  datatype Status = Ok | NotFound | Invalid | NoSpace | BufferTooSmall

  // ------------------------------------------------------------------------------ paths

  /** A segment ends before position `k`. */
  predicate Boundary(path: seq<Byte>, k: nat) { k == |path| || (k < |path| && path[k] == SLASH) }

  /** The slash at `i` is followed by a segment that is not empty, `.` or `..`. */
  predicate SegmentOk(path: seq<Byte>, i: nat)
    requires i < |path|
  {
    && !Boundary(path, i + 1)
    && !(path[i + 1] == DOT && Boundary(path, i + 2))
    && !(i + 2 < |path| && path[i + 1] == DOT && path[i + 2] == DOT && Boundary(path, i + 3))
  }

  /** An absolute path of printable segments without backslash. */
  ghost predicate ValidPath(path: seq<Byte>) {
    && |path| >= 2 && path[0] == SLASH
    && (forall i :: 0 <= i < |path| && path[i] == SLASH ==> SegmentOk(path, i))
    && forall i :: 1 <= i < |path| && path[i] != SLASH ==> 33 <= path[i] <= 126 && path[i] != 0x5C
  }

  method IsValidPath(path: seq<Byte>) returns (r: bool)
    ensures r <==> ValidPath(path)
  {
    if |path| < 2 || path[0] != SLASH || path[|path| - 1] == SLASH {
      if |path| >= 2 { assert !SegmentOk(path, |path| - 1); }
      return false;
    }
    var start, index := 1, 1;
    while index <= |path|
      invariant 1 <= start <= index <= |path| + 1 && (start <= |path| ==> path[start - 1] == SLASH)
      invariant index == |path| + 1 ==> start == |path| + 1
      invariant start <= |path| + 1 && (start <= |path| ==> index <= |path|)
      invariant forall i :: start <= i < index && i < |path| ==> path[i] != SLASH
      invariant forall i :: 0 <= i < start - 1 && i < |path| && path[i] == SLASH ==> SegmentOk(path, i)
      invariant forall i :: 1 <= i < index && i < |path| && path[i] != SLASH ==> 33 <= path[i] <= 126 && path[i] != 0x5C
    {
      if Boundary(path, index) {
        var length := index - start;
        if length == 0 || (length == 1 && path[start] == DOT) ||
          (length == 2 && path[start] == DOT && path[start + 1] == DOT) {
          assert !SegmentOk(path, start - 1);
          return false;
        }
        start := index + 1;
      } else if !(33 <= path[index] <= 126) || path[index] == 0x5C {
        return false;
      }
      index := index + 1;
    }
    return true;
  }

  // ------------------------------------------------------------------------------ files

  datatype Slot = Free | File(path: seq<Byte>, data: seq<Byte>)

  predicate At(fs: seq<Slot>, i: int, path: seq<Byte>) {
    0 <= i < |fs| && fs[i].File? && fs[i].path == path
  }

  /** The file system as a map. */
  ghost function View(fs: seq<Slot>): map<seq<Byte>, seq<Byte>> {
    if fs == [] then map[]
    else
      var m, s := View(fs[..|fs| - 1]), fs[|fs| - 1];
      if s.File? then m[s.path := s.data] else m
  }

  /** The paths in slot order. */
  function Paths(fs: seq<Slot>): seq<seq<Byte>> {
    if fs == [] then []
    else Paths(fs[..|fs| - 1]) + if fs[|fs| - 1].File? then [fs[|fs| - 1].path] else []
  }

  /** No path is stored twice. */
  ghost predicate Apart(fs: seq<Slot>) {
    forall i, j :: 0 <= i < |fs| && 0 <= j < |fs| && i != j && fs[i].File? && fs[j].File? ==> fs[i].path != fs[j].path
  }

  /** Membership in the map and in the listing, slot by slot. */
  lemma {:induction false} ViewIs(fs: seq<Slot>, path: seq<Byte>)
    requires Apart(fs)
    ensures path in View(fs) <==> exists i :: At(fs, i, path)
    ensures path in Paths(fs) <==> exists i :: At(fs, i, path)
    ensures forall i :: At(fs, i, path) ==> path in View(fs) && View(fs)[path] == fs[i].data
  {
    if fs != [] {
      var front, s := fs[..|fs| - 1], fs[|fs| - 1];
      ViewIs(front, path);
      assert forall i :: At(front, i, path) ==> At(fs, i, path);
      assert forall i :: At(fs, i, path) ==> i == |fs| - 1 || At(front, i, path);
      if s.File? && s.path == path { assert At(fs, |fs| - 1, path); }
    }
  }

  /** The listing has every key of the map exactly once. */
  lemma {:induction false} ListsKeys(fs: seq<Slot>)
    requires Apart(fs)
    ensures Unique(Paths(fs)) && Elements(Paths(fs)) == View(fs).Keys
  {
    if fs != [] {
      var front, s := fs[..|fs| - 1], fs[|fs| - 1];
      ListsKeys(front);
      if s.File? {
        ViewIs(front, s.path);
        UniqueAppend(Paths(front), s.path);
        assert Elements(Paths(fs)) == Elements(Paths(front)) + {s.path};
      } else {
        assert Paths(fs) == Paths(front);
      }
    }
  }

  /** Writing a slot that holds the path, or a free one when none does, updates the map. */
  lemma Written(fs: seq<Slot>, i: nat, path: seq<Byte>, data: seq<Byte>)
    requires Apart(fs) && i < |fs| && (At(fs, i, path) || (fs[i].Free? && forall j :: !At(fs, j, path)))
    ensures Apart(fs[i := File(path, data)]) && View(fs[i := File(path, data)]) == View(fs)[path := data]
  {
    var fs' := fs[i := File(path, data)];
    assert At(fs', i, path);
    assert forall j :: 0 <= j < |fs| && j != i ==> fs'[j] == fs[j] && !At(fs, j, path);
    forall p: seq<Byte>
      ensures p in View(fs') <==> p in View(fs) || p == path
      ensures p in View(fs') && p != path ==> p in View(fs) && View(fs')[p] == View(fs)[p]
    {
      ViewIs(fs, p);
      ViewIs(fs', p);
      assert forall j :: p != path && At(fs', j, p) ==> At(fs, j, p);
      assert forall j :: p != path && At(fs, j, p) ==> At(fs', j, p);
    }
    ViewIs(fs', path);
  }

  /** Freeing the slot of a path removes it from the map. */
  lemma Removed(fs: seq<Slot>, i: nat, path: seq<Byte>)
    requires Apart(fs) && At(fs, i, path)
    ensures Apart(fs[i := Free]) && View(fs[i := Free]) == View(fs) - {path}
  {
    var fs' := fs[i := Free];
    forall p: seq<Byte>
      ensures p in View(fs') <==> p in View(fs) && p != path
      ensures p in View(fs') ==> p in View(fs) && View(fs')[p] == View(fs)[p]
    {
      ViewIs(fs, p);
      ViewIs(fs', p);
      assert forall j :: At(fs', j, p) ==> At(fs, j, p) && p != path;
      assert forall j :: p != path && At(fs, j, p) ==> At(fs', j, p);
    }
  }

  lemma {:induction false} Counted(fs: seq<Slot>, i: nat, s: Slot)
    requires i < |fs|
    ensures |Paths(fs[i := s])| == |Paths(fs)| + (if s.File? then 1 else 0) - (if fs[i].File? then 1 else 0)
    decreases |fs|
  {
    var n := |fs| - 1;
    if i < n {
      Counted(fs[..n], i, s);
      assert fs[i := s][..n] == fs[..n][i := s];
    } else {
      assert fs[i := s][..n] == fs[..n];
    }
  }

  /** A map with at most sixteen keys can take the path. */
  ghost predicate RoomFor(m: map<seq<Byte>, seq<Byte>>, path: seq<Byte>) {
    path in m || |m.Keys| < FILES
  }

  class FileSystem {
    var files: seq<Slot>
    var count: nat

    ghost predicate Valid()
      reads this
    {
      && |files| == FILES && Apart(files) && count == |Paths(files)|
      && forall i :: 0 <= i < FILES && files[i].File? ==> FileOk(files[i])
    }

    constructor ()
      ensures Valid() && View(files) == map[]
    {
      files := seq(FILES, _ => Free);
      count := 0;
      new;
      AllFree(files);
    }

    /** The slot of a path and the first free slot before it; FILES stands for none. */
    method Search(path: seq<Byte>) returns (existing: nat, free: nat)
      requires Valid()
      ensures existing <= FILES && free <= FILES
      ensures existing < FILES ==> At(files, existing, path)
      ensures existing == FILES ==> forall j :: !At(files, j, path)
      ensures existing == FILES ==>
        if free < FILES then files[free].Free? else forall j :: 0 <= j < FILES ==> files[j].File?
    {
      existing, free := FILES, FILES;
      for index := 0 to FILES
        invariant free <= FILES && existing == FILES
        invariant forall j :: 0 <= j < index ==> !At(files, j, path)
        invariant if free < FILES then files[free].Free? else forall j :: 0 <= j < index ==> files[j].File?
      {
        if files[index].File? && files[index].path == path { return index, free; }
        if free == FILES && files[index].Free? { free := index; }
      }
    }

    /** Map update, unless the path or the data is unfit or a new path finds no free slot. */
    method WriteFile(path: seq<Byte>, data: seq<Byte>) returns (status: Status)
      requires Valid()
      modifies this
      ensures Valid()
      ensures View(files) == if status.Ok? then old(View(files))[path := data] else old(View(files))
      ensures status.Ok? <==>
        |path| <= PATH_CAPACITY && ValidPath(path) && |data| <= DATA_CAPACITY && RoomFor(old(View(files)), path)
    {
      if |path| > PATH_CAPACITY { return Invalid; }
      if |data| > DATA_CAPACITY { return NoSpace; }
      var valid := IsValidPath(path);
      if !valid { return Invalid; }
      ViewIs(files, path);
      KeyCount(files);
      var existing, free := Search(path);
      var slot := if existing < FILES then existing else free;
      if slot == FILES {
        AllFull(files);
        return NoSpace;
      }
      if files[slot].Free? { NotFull(files, slot); }
      Written(files, slot, path, data);
      Counted(files, slot, File(path, data));
      if files[slot].Free? { count := count + 1; }
      files := files[slot := File(path, data)];
      return Ok;
    }

    /** Map lookup. */
    method ReadFile(path: seq<Byte>, capacity: nat) returns (status: Status, data: seq<Byte>)
      requires Valid()
      ensures status.Ok? <==>
        |path| <= PATH_CAPACITY && ValidPath(path) && path in View(files) && |View(files)[path]| <= capacity
      ensures status.Ok? ==> data == View(files)[path]
      ensures status.NotFound? <==> |path| <= PATH_CAPACITY && ValidPath(path) && path !in View(files)
    {
      data := [];
      if |path| > PATH_CAPACITY { return Invalid, data; }
      var valid := IsValidPath(path);
      if !valid { return Invalid, data; }
      ViewIs(files, path);
      for index := 0 to FILES
        invariant forall j :: 0 <= j < index ==> !At(files, j, path)
      {
        if files[index].File? && files[index].path == path {
          assert At(files, index, path);
          if capacity < |files[index].data| { return BufferTooSmall, data; }
          return Ok, files[index].data;
        }
      }
      return NotFound, data;
    }

    /** Map deletion. */
    method RemoveFile(path: seq<Byte>) returns (status: Status)
      requires Valid()
      modifies this
      ensures Valid() && View(files) == if status.Ok? then old(View(files)) - {path} else old(View(files))
      ensures status.Ok? <==> |path| <= PATH_CAPACITY && ValidPath(path) && path in old(View(files))
    {
      if |path| > PATH_CAPACITY { return Invalid; }
      var valid := IsValidPath(path);
      if !valid { return Invalid; }
      ViewIs(files, path);
      var existing, _ := Search(path);
      if existing == FILES { return NotFound; }
      Removed(files, existing, path);
      Counted(files, existing, Free);
      files, count := files[existing := Free], count - 1;
      return Ok;
    }

    /** The path with a given number in the listing, and the lengths of path and data whenever there is one. */
    method EntryAt(requested: nat, capacity: nat)
      returns (status: Status, path: seq<Byte>, pathLength: nat, dataLength: nat)
      requires Valid()
      ensures status.Ok? <==> requested < |Paths(files)| && |Paths(files)[requested]| <= capacity
      ensures status.Ok? ==> path == Paths(files)[requested]
      ensures status.NotFound? <==> requested >= |Paths(files)|
      ensures requested < |Paths(files)| ==>
        var found := Paths(files)[requested];
        pathLength == |found| && found in View(files) && dataLength == |View(files)[found]|
    {
      path, pathLength, dataLength := [], 0, 0;
      var ordinal := 0;
      for index := 0 to FILES
        invariant ordinal == |Paths(files[..index])| && ordinal <= requested
      {
        assert files[..index + 1][..index] == files[..index];
        PathsPrefix(files, index + 1);
        if files[index].File? {
          if ordinal == requested {
            pathLength, dataLength := |files[index].path|, |files[index].data|;
            ViewIs(files, files[index].path);
            assert At(files, index, files[index].path);
            if capacity < pathLength { status := BufferTooSmall; return; }
            status, path := Ok, files[index].path;
            return;
          }
          ordinal := ordinal + 1;
        }
      }
      assert files[..FILES] == files;
      status := NotFound;
    }
  }

  ghost predicate FileOk(s: Slot)
    requires s.File?
  {
    |s.path| <= PATH_CAPACITY && ValidPath(s.path) && |s.data| <= DATA_CAPACITY
  }

  lemma {:induction false} PathsPrefix(fs: seq<Slot>, n: nat)
    requires n <= |fs|
    ensures Paths(fs[..n]) <= Paths(fs)
  {
    if n == |fs| { assert fs[..n] == fs; } else {
      PathsPrefix(fs[..|fs| - 1], n);
      assert fs[..|fs| - 1][..n] == fs[..n];
    }
  }

  lemma {:induction false} AllFree(fs: seq<Slot>)
    requires forall i :: 0 <= i < |fs| ==> fs[i].Free?
    ensures Paths(fs) == [] && View(fs) == map[]
  {
    if fs != [] { AllFree(fs[..|fs| - 1]); }
  }

  lemma {:induction false} AllFull(fs: seq<Slot>)
    requires forall i :: 0 <= i < |fs| ==> fs[i].File?
    ensures |Paths(fs)| == |fs|
  {
    if fs != [] { AllFull(fs[..|fs| - 1]); }
  }

  lemma {:induction false} NotFull(fs: seq<Slot>, i: nat)
    requires i < |fs| && fs[i].Free?
    ensures |Paths(fs)| < |fs|
  {
    if i < |fs| - 1 { NotFull(fs[..|fs| - 1], i); } else { AtMost(fs[..i]); }
  }

  lemma {:induction false} AtMost(fs: seq<Slot>)
    ensures |Paths(fs)| <= |fs|
  {
    if fs != [] { AtMost(fs[..|fs| - 1]); }
  }

  /** The listing is as long as the map is large. */
  lemma KeyCount(fs: seq<Slot>)
    requires Apart(fs)
    ensures |View(fs).Keys| == |Paths(fs)|
  {
    ListsKeys(fs);
    UniqueSize(Paths(fs));
  }

  lemma {:induction false} UniqueSize<T>(s: seq<T>)
    requires Unique(s)
    ensures |Elements(s)| == |s|
  {
    if s != [] {
      var front, last := s[..|s| - 1], s[|s| - 1];
      UniqueSize(front);
      assert Elements(s) == Elements(front) + {last};
    } else {
      assert Elements(s) == {};
    }
  }
}
