/** `RarAggregator` (backend/Queue/FileAggregators/RarAggregator.cs): turns
    the indexed volumes of one archive into file-tree entries, one RAR
    file per member, under directories mirroring the member paths.

    Item ids (`Guid.NewGuid`) come from a counter. */
module RarAggregator {
  import opened Text
  import Paths
  import Sorting
  import RP = RarProcessor

  /** One processed volume: its NZB segment ids and what the processor
      found in it. */
  datatype ArchivePart = ArchivePart(segmentIds: seq<string>, partSize: int, partNumber: int,
                                     segments: seq<RP.StoredFileSegment>)

  /** `DavRarFile.RarPart`: one window of a member. */
  datatype DavRarPart = DavRarPart(segmentIds: seq<string>, partSize: int, offset: int, byteCount: int)

  /** A window tagged with the member path it belongs to. */
  datatype Window = Window(path: string, part: DavRarPart)

  /** A member and its windows, in volume order. */
  datatype Member = Member(path: string, parts: seq<DavRarPart>)

  function PartKey(p: ArchivePart): Sorting.Key {
    Sorting.Key(p.partNumber, 0)
  }

  /** The windows one volume contributes, in header order. */
  function VolumeWindows(p: ArchivePart): seq<Window> {
    seq(|p.segments|, j requires 0 <= j < |p.segments| =>
          Window(p.segments[j].pathWithinArchive,
                 DavRarPart(p.segmentIds, p.partSize, p.segments[j].offset, p.segments[j].byteCount)))
  }

  /** The windows of the volumes, volume by volume. */
  function Windows(parts: seq<ArchivePart>): seq<Window>
    decreases |parts|
  {
    if |parts| == 0 then [] else VolumeWindows(parts[0]) + Windows(parts[1..])
  }

  /** The windows with member path `path`, in order. */
  function PartsOf(ws: seq<Window>, path: string): seq<DavRarPart>
    decreases |ws|
  {
    if |ws| == 0 then []
    else PartsOf(ws[..|ws| - 1], path) + (if ws[|ws| - 1].path == path then [ws[|ws| - 1].part] else [])
  }

  predicate DistinctPaths(ms: seq<Member>) {
    forall i, j :: 0 <= i < j < |ms| ==> ms[i].path != ms[j].path
  }

  predicate HasMember(ms: seq<Member>, path: string) {
    exists i :: 0 <= i < |ms| && ms[i].path == path
  }

  predicate HasWindow(ws: seq<Window>, path: string) {
    exists j :: 0 <= j < |ws| && ws[j].path == path
  }

  function IndexOf(ms: seq<Member>, path: string): (r: int)
    ensures -1 <= r < |ms|
    ensures r >= 0 ==> ms[r].path == path
    ensures r < 0 ==> !HasMember(ms, path)
  {
    if |ms| == 0 then -1
    else if ms[|ms| - 1].path == path then |ms| - 1
    else IndexOf(ms[..|ms| - 1], path)
  }

  /** One iteration of the grouping loop: the window joins its member's
      list, or starts a new member at the end. */
  function AddWindow(ms: seq<Member>, w: Window): seq<Member> {
    var i := IndexOf(ms, w.path);
    if i < 0 then ms + [Member(w.path, [w.part])]
    else ms[i := Member(w.path, ms[i].parts + [w.part])]
  }

  /** `ProcessArchive`'s dictionary of members, filled window by window. */
  function Group(ws: seq<Window>): seq<Member>
    decreases |ws|
  {
    if |ws| == 0 then [] else AddWindow(Group(ws[..|ws| - 1]), ws[|ws| - 1])
  }

  /** Grouping gives one member per distinct path of the windows, and each
      member lists exactly the windows with its path, in window order. */
  lemma {:induction false} GroupCorrect(ws: seq<Window>)
    ensures DistinctPaths(Group(ws))
    ensures forall i :: 0 <= i < |Group(ws)| ==> Group(ws)[i].parts == PartsOf(ws, Group(ws)[i].path)
    ensures forall path :: HasMember(Group(ws), path) <==> HasWindow(ws, path)
    decreases |ws|
  {
    if |ws| > 0 {
      var init, w := ws[..|ws| - 1], ws[|ws| - 1];
      GroupCorrect(init);
      var ms := Group(init);
      assert Group(ws) == AddWindow(ms, w);
      StepDistinct(ms, w);
      StepParts(ws, ms);
      StepPaths(ws, ms);
    }
  }

  /** Adding a window keeps the member paths distinct. */
  lemma StepDistinct(ms: seq<Member>, w: Window)
    requires DistinctPaths(ms)
    ensures DistinctPaths(AddWindow(ms, w))
  {
    var r := AddWindow(ms, w);
    var k := IndexOf(ms, w.path);
    if k < 0 {
      forall i, j | 0 <= i < j < |r|
        ensures r[i].path != r[j].path
      {
        if j == |ms| {
          assert r[i] == ms[i];
        }
      }
    } else {
      assert forall i :: 0 <= i < |r| ==> r[i].path == ms[i].path;
    }
  }

  /** Adding the last window keeps each member's list equal to the
      windows with its path. */
  lemma StepParts(ws: seq<Window>, ms: seq<Member>)
    requires |ws| > 0 && DistinctPaths(ms)
    requires forall i :: 0 <= i < |ms| ==> ms[i].parts == PartsOf(ws[..|ws| - 1], ms[i].path)
    requires forall path :: HasMember(ms, path) <==> HasWindow(ws[..|ws| - 1], path)
    ensures var r := AddWindow(ms, ws[|ws| - 1]);
            forall i :: 0 <= i < |r| ==> r[i].parts == PartsOf(ws, r[i].path)
  {
    var init, w := ws[..|ws| - 1], ws[|ws| - 1];
    var r := AddWindow(ms, w);
    var k := IndexOf(ms, w.path);
    forall i | 0 <= i < |r|
      ensures r[i].parts == PartsOf(ws, r[i].path)
    {
      if i < |ms| && i != k {
        assert r[i] == ms[i];
        assert ms[i].path != w.path;
      } else if k < 0 {
        assert !HasWindow(init, w.path);
        PartsOfAbsent(init, w.path);
      }
    }
  }

  /** Adding the last window keeps the member paths equal to the window
      paths. */
  lemma StepPaths(ws: seq<Window>, ms: seq<Member>)
    requires |ws| > 0
    requires forall path :: HasMember(ms, path) <==> HasWindow(ws[..|ws| - 1], path)
    ensures var r := AddWindow(ms, ws[|ws| - 1]);
            forall path :: HasMember(r, path) <==> HasWindow(ws, path)
  {
    var init, w := ws[..|ws| - 1], ws[|ws| - 1];
    var r := AddWindow(ms, w);
    var k := IndexOf(ms, w.path);
    forall path
      ensures HasMember(r, path) <==> HasWindow(ws, path)
    {
      if HasWindow(ws, path) && path != w.path {
        var j :| 0 <= j < |ws| && ws[j].path == path;
        assert init[j].path == path;
        assert HasWindow(init, path);
        assert HasMember(ms, path);
        var i :| 0 <= i < |ms| && ms[i].path == path;
        assert r[i].path == path;
      }
      if HasMember(r, path) && path != w.path {
        var i :| 0 <= i < |r| && r[i].path == path;
        assert ms[i].path == path;
        assert HasMember(ms, path);
        var j :| 0 <= j < |init| && init[j].path == path;
        assert ws[j].path == path;
      }
      if path == w.path {
        assert ws[|ws| - 1].path == path;
        if k < 0 {
          assert r[|ms|].path == path;
        } else {
          assert r[k].path == path;
        }
      }
    }
  }

  lemma {:induction false} PartsOfAbsent(ws: seq<Window>, path: string)
    requires !HasWindow(ws, path)
    ensures PartsOf(ws, path) == []
    decreases |ws|
  {
    if |ws| > 0 {
      PartsOfAbsent(ws[..|ws| - 1], path);
    }
  }

  /** `SegmentIds`, `PartSize`, `Offset`, `ByteCount` of each window come
      from its volume and its stored-file segment. */
  lemma VolumeWindowsCarry(p: ArchivePart, j: int)
    requires 0 <= j < |p.segments|
    ensures VolumeWindows(p)[j].path == p.segments[j].pathWithinArchive
    ensures VolumeWindows(p)[j].part == DavRarPart(p.segmentIds, p.partSize, p.segments[j].offset, p.segments[j].byteCount)
  {
  }

  /** The sum of the windows' sizes: the member's `FileSize`. */
  function SumByteCount(parts: seq<DavRarPart>): int
    decreases |parts|
  {
    if |parts| == 0 then 0 else SumByteCount(parts[..|parts| - 1]) + parts[|parts| - 1].byteCount
  }

  /** A created directory. */
  datatype Directory = Directory(id: nat, parentId: nat, name: string)

  /** A created RAR file item with its parts. */
  datatype RarFile = RarFile(id: nat, parentId: nat, name: string, fileSize: int, parts: seq<DavRarPart>)

  /** The directory cache keyed by joined path, the directories created so
      far and the next free id. */
  datatype Dirs = Dirs(cache: map<string, nat>, created: seq<Directory>, nextId: nat)

  /** `st'` keeps every entry of `st`, and only adds directories. */
  predicate Extends(st: Dirs, st': Dirs) {
    && (forall k :: k in st.cache ==> k in st'.cache && st'.cache[k] == st.cache[k])
    && |st.created| <= |st'.created| && st'.created[..|st.created|] == st.created
  }

  /** `EnsureDirectory`: the cached directory for `pathKey`, or a new one
      under `parentId`, which is then cached. */
  function EnsureDirectory(st: Dirs, parentId: nat, name: string, pathKey: string): (r: (Dirs, nat))
    ensures Extends(st, r.0) && pathKey in r.0.cache && r.0.cache[pathKey] == r.1
    ensures pathKey in st.cache ==> r == (st, st.cache[pathKey])
    ensures pathKey !in st.cache ==> && r.0.created == st.created + [Directory(r.1, parentId, name)]
                                     && r.0.cache == st.cache[pathKey := r.1]
  {
    if pathKey in st.cache then (st, st.cache[pathKey])
    else
      var id := st.nextId;
      (Dirs(st.cache[pathKey := id], st.created + [Directory(id, parentId, name)], st.nextId + 1), id)
  }

  /** The cache key after the first `i` path segments. */
  function KeyAt(segments: seq<string>, i: int): string
    requires 0 <= i <= |segments|
  {
    if i == 0 then "" else Paths.Join(KeyAt(segments, i - 1), segments[i - 1])
  }

  /** The directory loop of `EnsurePath` from segment `i` on. */
  function EnsureFrom(st: Dirs, segments: seq<string>, i: int, parentId: nat): (r: (Dirs, nat))
    requires 0 <= i < |segments|
    ensures Extends(st, r.0)
    ensures forall j :: i < j < |segments| ==> KeyAt(segments, j) in r.0.cache
    ensures r.1 == if i == |segments| - 1 then parentId else r.0.cache[KeyAt(segments, |segments| - 1)]
    ensures (forall j :: i < j < |segments| ==> KeyAt(segments, j) in st.cache) ==> r.0 == st
    decreases |segments| - i
  {
    if i == |segments| - 1 then (st, parentId)
    else
      var (st1, dir) := EnsureDirectory(st, parentId, segments[i], KeyAt(segments, i + 1));
      EnsureFrom(st1, segments, i + 1, dir)
  }

  /** `d` is the directory of the prefix of `segments` of length `j`:
      cached under that prefix's key, named after its last segment, and
      placed in the directory of the prefix one shorter (`top` for the
      first segment). */
  predicate Link(st: Dirs, segments: seq<string>, j: int, top: nat, d: Directory) {
    && 1 <= j < |segments|
    && KeyAt(segments, j) in st.cache && d.id == st.cache[KeyAt(segments, j)]
    && d.name == segments[j - 1]
    && (j == 1 ==> d.parentId == top)
    && (j > 1 ==> KeyAt(segments, j - 1) in st.cache && d.parentId == st.cache[KeyAt(segments, j - 1)])
  }

  /** The directories `EnsureFrom` creates, past `st`'s. */
  function Fresh(st: Dirs, st': Dirs): seq<Directory>
    requires Extends(st, st')
  {
    st'.created[|st.created|..]
  }

  /** One step of `EnsureFrom`: what it creates is what the first
      `EnsureDirectory` creates followed by what the rest creates. */
  lemma EnsureFromStep(st: Dirs, segments: seq<string>, i: int, parentId: nat)
    requires 0 <= i < |segments| - 1
    ensures var step := EnsureDirectory(st, parentId, segments[i], KeyAt(segments, i + 1));
            var r := EnsureFrom(st, segments, i, parentId);
            && r == EnsureFrom(step.0, segments, i + 1, step.1)
            && Extends(step.0, r.0)
            && (KeyAt(segments, i + 1) in st.cache ==> step.0 == st)
            && (KeyAt(segments, i + 1) !in st.cache ==>
                  Fresh(st, r.0) == [Directory(step.1, parentId, segments[i])] + Fresh(step.0, r.0))
  {
    var step := EnsureDirectory(st, parentId, segments[i], KeyAt(segments, i + 1));
    var r := EnsureFrom(step.0, segments, i + 1, step.1);
    if KeyAt(segments, i + 1) !in st.cache {
      var created := st.created + [Directory(step.1, parentId, segments[i])];
      assert step.0.created == created;
      assert r.0.created[..|created|] == created;
      assert r.0.created[|st.created|..] == [created[|st.created|]] + r.0.created[|created|..];
    }
  }

  /** Every directory `EnsureFrom` creates is a link of the path's chain
      below `top`. */
  lemma {:induction false} EnsureFromLinks(st: Dirs, segments: seq<string>, i: int, parentId: nat, top: nat)
    requires 0 <= i < |segments|
    requires i == 0 ==> parentId == top
    requires i > 0 ==> KeyAt(segments, i) in st.cache && st.cache[KeyAt(segments, i)] == parentId
    ensures var r := EnsureFrom(st, segments, i, parentId);
            forall d :: d in Fresh(st, r.0) ==> exists j :: i < j < |segments| && Link(r.0, segments, j, top, d)
    decreases |segments| - i
  {
    if i < |segments| - 1 {
      var key := KeyAt(segments, i + 1);
      var (st1, dir) := EnsureDirectory(st, parentId, segments[i], key);
      EnsureFromStep(st, segments, i, parentId);
      EnsureFromLinks(st1, segments, i + 1, dir, top);
      var r := EnsureFrom(st, segments, i, parentId);
      if key !in st.cache {
        var d0 := Directory(dir, parentId, segments[i]);
        assert Link(r.0, segments, i + 1, top, d0);
        forall d | d in Fresh(st, r.0)
          ensures exists j :: i < j < |segments| && Link(r.0, segments, j, top, d)
        {
          if d != d0 {
            assert d in Fresh(st1, r.0);
          }
        }
      }
    }
  }

  /** Every directory created from `st` to `st2` is a link of the chain
      of `segments` below `top`. */
  predicate Chain(st: Dirs, st2: Dirs, segments: seq<string>, top: nat)
    requires Extends(st, st2)
  {
    forall d :: d in Fresh(st, st2) ==> exists j :: 0 < j < |segments| && Link(st2, segments, j, top, d)
  }

  /** Every directory prefix of `segments` past `i` missing from `st`'s
      cache has a directory among those created from `st` to `st2`. */
  predicate Covers(st: Dirs, st2: Dirs, segments: seq<string>, i: int)
    requires Extends(st, st2) && 0 <= i < |segments|
    requires forall j :: i < j < |segments| ==> KeyAt(segments, j) in st2.cache
  {
    forall j :: i < j < |segments| && KeyAt(segments, j) !in st.cache ==>
      exists d :: d in Fresh(st, st2) && d.id == st2.cache[KeyAt(segments, j)]
  }

  /** Every directory prefix of the path missing from `st`'s cache gets a
      directory from `EnsureFrom`. */
  lemma {:induction false} EnsureFromCovers(st: Dirs, segments: seq<string>, i: int, parentId: nat)
    requires 0 <= i < |segments|
    ensures var r := EnsureFrom(st, segments, i, parentId);
            forall j :: i < j < |segments| && KeyAt(segments, j) !in st.cache ==>
              exists d :: d in Fresh(st, r.0) && d.id == r.0.cache[KeyAt(segments, j)]
    decreases |segments| - i
  {
    if i < |segments| - 1 {
      var step := EnsureDirectory(st, parentId, segments[i], KeyAt(segments, i + 1));
      EnsureFromCovers(step.0, segments, i + 1, step.1);
      CoversStep(st, segments, i, parentId);
    }
  }

  /** The inductive step of `EnsureFromCovers`. */
  lemma CoversStep(st: Dirs, segments: seq<string>, i: int, parentId: nat)
    requires 0 <= i < |segments| - 1
    requires var step := EnsureDirectory(st, parentId, segments[i], KeyAt(segments, i + 1));
             Covers(step.0, EnsureFrom(step.0, segments, i + 1, step.1).0, segments, i + 1)
    ensures Covers(st, EnsureFrom(st, segments, i, parentId).0, segments, i)
  {
    var key := KeyAt(segments, i + 1);
    var step := EnsureDirectory(st, parentId, segments[i], key);
    EnsureFromStep(st, segments, i, parentId);
    var r := EnsureFrom(st, segments, i, parentId);
    if key !in st.cache {
      CoversAfterCreate(st, step.0, r.0, segments, i, Directory(step.1, parentId, segments[i]));
    } else {
      CoversWhenCached(st, r.0, segments, i);
    }
  }

  /** The inductive step of `EnsureFromCovers` when the first directory
      was cached: the rest covers everything. */
  lemma CoversWhenCached(st: Dirs, st2: Dirs, segments: seq<string>, i: int)
    requires 0 <= i < |segments| - 1 && Extends(st, st2)
    requires KeyAt(segments, i + 1) in st.cache
    requires forall j :: i < j < |segments| ==> KeyAt(segments, j) in st2.cache
    requires Covers(st, st2, segments, i + 1)
    ensures Covers(st, st2, segments, i)
  {
  }

  /** The inductive step of `EnsureFromCovers` when the first directory is
      new: it covers its own key, and the rest covers the others. */
  lemma CoversAfterCreate(st: Dirs, st1: Dirs, st2: Dirs, segments: seq<string>, i: int, d0: Directory)
    requires 0 <= i < |segments| - 1
    requires Extends(st, st1) && Extends(st1, st2) && Extends(st, st2)
    requires st1.cache == st.cache[KeyAt(segments, i + 1) := d0.id]
    requires Fresh(st, st2) == [d0] + Fresh(st1, st2)
    requires forall j :: i + 1 < j < |segments| ==> KeyAt(segments, j) in st2.cache
    requires forall j :: i + 1 < j < |segments| && KeyAt(segments, j) !in st1.cache ==>
               exists d :: d in Fresh(st1, st2) && d.id == st2.cache[KeyAt(segments, j)]
    ensures forall j :: i < j < |segments| && KeyAt(segments, j) !in st.cache ==>
              exists d :: d in Fresh(st, st2) && d.id == st2.cache[KeyAt(segments, j)]
  {
    var key := KeyAt(segments, i + 1);
    forall j | i < j < |segments| && KeyAt(segments, j) !in st.cache
      ensures exists d :: d in Fresh(st, st2) && d.id == st2.cache[KeyAt(segments, j)]
    {
      if KeyAt(segments, j) == key {
        assert d0 in Fresh(st, st2);
      } else {
        var d :| d in Fresh(st1, st2) && d.id == st2.cache[KeyAt(segments, j)];
        assert d in Fresh(st, st2);
      }
    }
  }

  /** `EnsurePath`: the directory a member goes in, creating the missing
      directories of its path under the mount directory. The result is
      the mount directory for a bare name, otherwise the directory cached
      for the path's directory part; every directory created is a link of
      the path's chain, and every directory prefix not cached before gets
      one. */
  function EnsurePath(st: Dirs, mountId: nat, path: string): (r: (Dirs, nat))
    ensures Extends(st, r.0)
    ensures var segments := Split(path, Paths.Separator);
            && (forall j :: 0 < j < |segments| ==> KeyAt(segments, j) in r.0.cache)
            && r.1 == if |segments| == 1 then mountId else r.0.cache[KeyAt(segments, |segments| - 1)]
    ensures Chain(st, r.0, Split(path, Paths.Separator), mountId)
    ensures Covers(st, r.0, Split(path, Paths.Separator), 0)
  {
    EnsureFromLinks(st, Split(path, Paths.Separator), 0, mountId, mountId);
    EnsureFromCovers(st, Split(path, Paths.Separator), 0, mountId);
    EnsureFrom(st, Split(path, Paths.Separator), 0, mountId)
  }

  /** Ensuring the same path again creates nothing and gives the same
      directory: each directory is created at most once. */
  lemma EnsurePathIdempotent(st: Dirs, mountId: nat, path: string)
    ensures var (st1, dir) := EnsurePath(st, mountId, path);
            EnsurePath(st1, mountId, path) == (st1, dir)
  {
  }

  /** The ids of the directories created. */
  function Ids(ds: seq<Directory>): (r: set<nat>)
    ensures forall d :: d in ds ==> d.id in r
    ensures forall x :: x in r ==> exists d :: d in ds && d.id == x
  {
    set d | d in ds :: d.id
  }

  /** Every cached id is a created directory, and every created directory
      sits in `top` or in another created directory. */
  predicate Placed(st: Dirs, top: nat) {
    && (forall k :: k in st.cache ==> st.cache[k] in Ids(st.created))
    && (forall d :: d in st.created ==> d.parentId == top || d.parentId in Ids(st.created))
  }

  lemma IdsGrow(st: Dirs, st': Dirs)
    requires Extends(st, st')
    ensures Ids(st.created) <= Ids(st'.created)
  {
    forall x | x in Ids(st.created)
      ensures x in Ids(st'.created)
    {
      var d :| d in st.created && d.id == x;
      var k :| 0 <= k < |st.created| && st.created[k] == d;
      assert st'.created[k] == d;
    }
  }

  /** Ensuring one directory keeps the placement, and gives a created
      directory. */
  lemma EnsureDirectoryPlaced(st: Dirs, parentId: nat, name: string, pathKey: string, top: nat)
    requires Placed(st, top) && (parentId == top || parentId in Ids(st.created))
    ensures var step := EnsureDirectory(st, parentId, name, pathKey);
            Placed(step.0, top) && step.1 in Ids(step.0.created)
  {
    var step := EnsureDirectory(st, parentId, name, pathKey);
    if pathKey !in st.cache {
      var d0 := Directory(step.1, parentId, name);
      assert step.0.created == st.created + [d0];
      assert Ids(step.0.created) == Ids(st.created) + {step.1};
    }
  }

  /** The directory walk keeps every directory inside `top` or another
      created directory, and its result is one of those. */
  lemma {:induction false} EnsureFromPlaced(st: Dirs, segments: seq<string>, i: int, parentId: nat, top: nat)
    requires 0 <= i < |segments| && Placed(st, top)
    requires parentId == top || parentId in Ids(st.created)
    ensures var r := EnsureFrom(st, segments, i, parentId);
            Placed(r.0, top) && (r.1 == top || r.1 in Ids(r.0.created))
    decreases |segments| - i
  {
    if i < |segments| - 1 {
      var step := EnsureDirectory(st, parentId, segments[i], KeyAt(segments, i + 1));
      EnsureDirectoryPlaced(st, parentId, segments[i], KeyAt(segments, i + 1), top);
      EnsureFromPlaced(step.0, segments, i + 1, step.1, top);
      assert EnsureFrom(st, segments, i, parentId) == EnsureFrom(step.0, segments, i + 1, step.1);
    }
  }

  /** The RAR file item of one member, placed by `EnsurePath`. */
  function MemberItem(st: Dirs, mountId: nat, m: Member): (r: (Dirs, RarFile))
    ensures Extends(st, r.0)
    ensures && r.1.name == Paths.GetFileName(m.path) && r.1.parts == m.parts
            && r.1.fileSize == SumByteCount(m.parts) && r.1.parentId == EnsurePath(st, mountId, m.path).1
  {
    var (st1, parent) := EnsurePath(st, mountId, m.path);
    (st1.(nextId := st1.nextId + 1), RarFile(st1.nextId, parent, Paths.GetFileName(m.path), SumByteCount(m.parts), m.parts))
  }

  /** The items of the members, in order. */
  function MemberItems(st: Dirs, mountId: nat, ms: seq<Member>): (r: (Dirs, seq<RarFile>))
    ensures Extends(st, r.0) && |r.1| == |ms|
    ensures forall i :: 0 <= i < |ms| ==>
              && r.1[i].name == Paths.GetFileName(ms[i].path) && r.1[i].parts == ms[i].parts
              && r.1[i].fileSize == SumByteCount(ms[i].parts)
    decreases |ms|
  {
    if |ms| == 0 then (st, [])
    else
      var (st1, item) := MemberItem(st, mountId, ms[0]);
      var (st2, items) := MemberItems(st1, mountId, ms[1..]);
      (st2, [item] + items)
  }

  /** One member's item sits in the mount directory or a created one. */
  lemma MemberItemPlaced(st: Dirs, mountId: nat, m: Member)
    requires Placed(st, mountId)
    ensures var r := MemberItem(st, mountId, m);
            Placed(r.0, mountId) && (r.1.parentId == mountId || r.1.parentId in Ids(r.0.created))
  {
    EnsureFromPlaced(st, Split(m.path, Paths.Separator), 0, mountId, mountId);
  }

  /** Every item sits in the mount directory or in a created directory,
      and so does every created directory. */
  lemma {:induction false} MemberItemsPlaced(st: Dirs, mountId: nat, ms: seq<Member>)
    requires Placed(st, mountId)
    ensures var r := MemberItems(st, mountId, ms);
            && Placed(r.0, mountId)
            && forall i :: 0 <= i < |r.1| ==> r.1[i].parentId == mountId || r.1[i].parentId in Ids(r.0.created)
    decreases |ms|
  {
    if |ms| > 0 {
      var m := MemberItem(st, mountId, ms[0]);
      MemberItemPlaced(st, mountId, ms[0]);
      MemberItemsPlaced(m.0, mountId, ms[1..]);
      var rest := MemberItems(m.0, mountId, ms[1..]);
      IdsGrow(m.0, rest.0);
      var items := [m.1] + rest.1;
      assert MemberItems(st, mountId, ms) == (rest.0, items);
      forall i | 0 <= i < |items|
        ensures items[i].parentId == mountId || items[i].parentId in Ids(rest.0.created)
      {
        if i > 0 {
          assert items[i] == rest.1[i - 1];
        }
      }
    }
  }

  /** `UpdateDatabase`: volumes in part-number order, windows grouped into
      members, one RAR file item per member. */
  function UpdateDatabase(st: Dirs, mountId: nat, parts: seq<ArchivePart>): (r: (Dirs, seq<RarFile>))
    ensures Extends(st, r.0)
  {
    var ordered := Sorting.SortBy(parts, PartKey);
    MemberItems(st, mountId, Group(Windows(ordered)))
  }

  /** Every member path of the archive gets exactly one item, which lists
      the member's windows in part-number order and is as large as their
      sum. */
  lemma UpdateDatabaseCorrect(st: Dirs, mountId: nat, parts: seq<ArchivePart>)
    ensures var ordered := Sorting.SortBy(parts, PartKey);
            var ws := Windows(ordered);
            var items := UpdateDatabase(st, mountId, parts).1;
            && Sorting.Sorted(ordered, PartKey)
            && multiset(ordered) == multiset(parts)
            && |items| == |Group(ws)|
            && (forall i :: 0 <= i < |items| ==>
                  && items[i].parts == PartsOf(ws, Group(ws)[i].path)
                  && items[i].fileSize == SumByteCount(items[i].parts)
                  && items[i].name == Paths.GetFileName(Group(ws)[i].path))
            && (forall path :: HasMember(Group(ws), path) <==> HasWindow(ws, path))
            && DistinctPaths(Group(ws))
  {
    Sorting.SortByCorrect(parts, PartKey);
    GroupCorrect(Windows(Sorting.SortBy(parts, PartKey)));
  }

  /** Starting from no directories, every RAR file item and every created
      directory sits in the mount directory or in a created directory. */
  lemma UpdateDatabasePlaced(mountId: nat, nextId: nat, parts: seq<ArchivePart>)
    ensures var r := UpdateDatabase(Dirs(map[], [], nextId), mountId, parts);
            && Placed(r.0, mountId)
            && forall i :: 0 <= i < |r.1| ==> r.1[i].parentId == mountId || r.1[i].parentId in Ids(r.0.created)
  {
    var st := Dirs(map[], [], nextId);
    assert Placed(st, mountId);
    MemberItemsPlaced(st, mountId, Group(Windows(Sorting.SortBy(parts, PartKey))));
  }
}
