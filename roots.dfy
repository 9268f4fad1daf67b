/** The system-root registry of the file browser: `get_system_roots` turns
    the host's drive list into an insertion-ordered dictionary from a label
    to a root directory. */
module Roots {
  import opened Strings

  /** What `platform.system()` reports, as far as the browser cares. */
  datatype Platform = Windows | OtherPlatform

  /** On Windows: `win32api` could not be imported, or it was and
      `GetLogicalDriveStrings()` returned this NUL-separated string. */
  datatype DriveApi = Missing | Loaded(driveStrings: string)

  /** A Python `dict` from label to root path, in insertion order. Keys are
      kept distinct by `Put`; the order matters because the browser takes
      the first value as its fallback root. */
  type RootMap = seq<(string, string)>

  predicate DistinctKeys(m: RootMap)
  {
    forall i, j :: 0 <= i < j < |m| ==> m[i].0 != m[j].0
  }

  /** `m.get(k)`. */
  function Lookup(m: RootMap, k: string): Option<string>
  {
    if m == [] then None
    else if m[|m| - 1].0 == k then Some(m[|m| - 1].1)
    else Lookup(m[..|m| - 1], k)
  }

  lemma {:induction false} LookupFound(m: RootMap, i: nat)
    requires DistinctKeys(m) && i < |m|
    ensures Lookup(m, m[i].0) == Some(m[i].1)
  {
    if i < |m| - 1 {
      LookupFound(m[..|m| - 1], i);
    }
  }

  lemma {:induction false} LookupMissing(m: RootMap, k: string)
    requires forall i :: 0 <= i < |m| ==> m[i].0 != k
    ensures Lookup(m, k) == None
  {
    if m != [] {
      LookupMissing(m[..|m| - 1], k);
    }
  }

  /** The position of key `k` in `m`, or -1. */
  function IndexOfKey(m: RootMap, k: string): (i: int)
    ensures -1 <= i < |m|
    ensures i >= 0 ==> m[i].0 == k
    ensures i < 0 ==> forall j :: 0 <= j < |m| ==> m[j].0 != k
  {
    if m == [] then -1
    else if m[|m| - 1].0 == k then |m| - 1
    else IndexOfKey(m[..|m| - 1], k)
  }

  /** `m[k] = v` on an insertion-ordered dict: an existing key keeps its
      position and gets the new value; a new key goes at the end. */
  function Put(m: RootMap, k: string, v: string): (r: RootMap)
    requires DistinctKeys(m)
    ensures DistinctKeys(r)
    ensures |r| >= 1 && |m| <= |r| <= |m| + 1
    ensures Lookup(r, k) == Some(v)
    ensures forall k' :: k' != k ==> Lookup(r, k') == Lookup(m, k')
    ensures forall i :: 0 <= i < |m| ==> r[i].0 == m[i].0
  {
    var i := IndexOfKey(m, k);
    var r := if i >= 0 then m[i := (k, v)] else m + [(k, v)];
    LookupFound(r, if i >= 0 then i else |m|);
    forall k' | k' != k ensures Lookup(r, k') == Lookup(m, k') {
      var j := IndexOfKey(m, k');
      if j >= 0 {
        LookupFound(m, j);
        LookupFound(r, j);
      } else {
        LookupMissing(m, k');
        LookupMissing(r, k');
      }
    }
    r
  }

  // ---------------------------------------------------------------------------
  // get_system_roots
  // ---------------------------------------------------------------------------

  /** The drive list: `s.split('\000')[:-1]`, the pieces before the last NUL. */
  function Drives(s: string): (ds: seq<string>)
    ensures |ds| == |SplitOn(s, NUL)| - 1
    ensures forall i :: 0 <= i < |ds| ==> NUL !in ds[i] && ds[i] == SplitOn(s, NUL)[i]
  {
    var pieces := SplitOn(s, NUL);
    pieces[..|pieces| - 1]
  }

  /** The key of one drive: `drive[:2]`. */
  function DriveLabel(d: string): string
  {
    Take(d, 2)
  }

  /** `{drive[:2]: drive for drive in drives}`: later drives overwrite earlier
      ones with the same label, which keep their first position. */
  function FromDrives(ds: seq<string>): (m: RootMap)
    ensures DistinctKeys(m)
    ensures |m| <= |ds|
    ensures (m == []) == (ds == [])
  {
    if ds == [] then []
    else Put(FromDrives(ds[..|ds| - 1]), DriveLabel(ds[|ds| - 1]), ds[|ds| - 1])
  }

  /** `get_system_roots()`. The registry is empty only on Windows, with the
      drive API loaded, when its string holds no NUL. */
  function SystemRoots(p: Platform, api: DriveApi): (m: RootMap)
    ensures DistinctKeys(m)
    ensures (m == []) == (p.Windows? && api.Loaded? && NUL !in api.driveStrings)
    ensures p.OtherPlatform? ==> m == [("/", "/")]
    ensures p.Windows? && api.Missing? ==> m == [("C:\\", "C:\\")]
  {
    match p
    case OtherPlatform => [("/", "/")]
    case Windows =>
      match api
      case Missing => [("C:\\", "C:\\")]
      case Loaded(s) => FromDrives(Drives(s))
  }

  /** `next(iter(m.values()))`; None stands for the StopIteration an empty
      dictionary raises. */
  function FirstRoot(m: RootMap): (r: Option<string>)
    ensures r.Some? <==> m != []
    ensures r.Some? ==> r.value == m[0].1
  {
    if m == [] then None else Some(m[0].1)
  }

  // ---------------------------------------------------------------------------
  // Properties
  // ---------------------------------------------------------------------------

  /** The NUL-terminated list the drive API produces: each drive followed by NUL. */
  function Terminated(ds: seq<string>): string
  {
    JoinWith(ds + [[]], NUL)
  }

  /** Parsing recovers exactly the drives of a NUL-terminated list. */
  lemma DrivesOfTerminated(ds: seq<string>)
    requires forall i :: 0 <= i < |ds| ==> NUL !in ds[i]
    ensures Drives(Terminated(ds)) == ds
  {
    SplitJoin(ds + [[]], NUL);
  }

  /** The string is the drives, each followed by NUL, and then the discarded last piece. */
  lemma DrivesThenRest(s: string)
    ensures |SplitOn(s, NUL)| >= 1
    ensures Terminated(Drives(s)) + SplitOn(s, NUL)[|SplitOn(s, NUL)| - 1] == s
    ensures forall i :: 0 <= i < |Drives(s)| ==> NUL !in Drives(s)[i]
  {
    var pieces := SplitOn(s, NUL);
    JoinSplit(s, NUL);
    JoinPrefix(Drives(s), pieces[|pieces| - 1]);
    PiecesAreDrivesThenLast(pieces, Drives(s));
  }

  lemma PiecesAreDrivesThenLast(pieces: seq<string>, ds: seq<string>)
    requires pieces != [] && ds == pieces[..|pieces| - 1]
    ensures ds + [pieces[|pieces| - 1]] == pieces
  {
  }

  lemma {:induction false} JoinPrefix(ds: seq<string>, last: string)
    ensures JoinWith(ds + [last], NUL) == Terminated(ds) + last
  {
    if ds != [] {
      JoinPrefix(ds[1..], last);
      assert (ds + [last])[1..] == ds[1..] + [last];
      assert (ds + [[]])[1..] == ds[1..] + [[]];
    }
  }

  /** The first key of the registry is the label of the first drive: a
      repeated label keeps the position where it first appeared. */
  lemma {:induction false} FirstKeyIsFirstLabel(ds: seq<string>)
    requires ds != []
    ensures FromDrives(ds)[0].0 == DriveLabel(ds[0])
  {
    if |ds| > 1 {
      FirstKeyIsFirstLabel(ds[..|ds| - 1]);
    }
  }

  /** The last drive in `ds` whose label is `k`, if any. */
  function LastWithLabel(ds: seq<string>, k: string): Option<string>
  {
    if ds == [] then None
    else if DriveLabel(ds[|ds| - 1]) == k then Some(ds[|ds| - 1])
    else LastWithLabel(ds[..|ds| - 1], k)
  }

  /** Every label maps to the last drive carrying it, and nothing else is a key. */
  lemma {:induction false} FromDrivesLookup(ds: seq<string>, k: string)
    ensures Lookup(FromDrives(ds), k) == LastWithLabel(ds, k)
  {
    if ds != [] {
      FromDrivesLookup(ds[..|ds| - 1], k);
    }
  }

  /** With pairwise-distinct labels, the dictionary lists every drive, in order. */
  lemma {:induction false} FromDistinctDrives(ds: seq<string>)
    requires forall i, j :: 0 <= i < j < |ds| ==> DriveLabel(ds[i]) != DriveLabel(ds[j])
    ensures FromDrives(ds) == Labelled(ds)
  {
    if ds != [] {
      var init, last := ds[..|ds| - 1], ds[|ds| - 1];
      FromDistinctDrives(init);
      var m := FromDrives(init);
      forall j | 0 <= j < |m| ensures m[j].0 != DriveLabel(last) {
        assert m[j].0 == DriveLabel(ds[j]);
      }
      PutNew(m, DriveLabel(last), last);
      LabelledSnoc(ds);
    }
  }

  /** Each drive under its label, in order. */
  function Labelled(ds: seq<string>): (m: RootMap)
    ensures |m| == |ds|
  {
    seq(|ds|, i requires 0 <= i < |ds| => (DriveLabel(ds[i]), ds[i]))
  }

  lemma LabelledSnoc(ds: seq<string>)
    requires ds != []
    ensures Labelled(ds) == Labelled(ds[..|ds| - 1]) + [(DriveLabel(ds[|ds| - 1]), ds[|ds| - 1])]
  {
  }

  /** Assigning a key that is not yet present appends it. */
  lemma PutNew(m: RootMap, k: string, v: string)
    requires DistinctKeys(m)
    requires forall j :: 0 <= j < |m| ==> m[j].0 != k
    ensures Put(m, k, v) == m + [(k, v)]
  {
  }

  /** With the drive API loaded, each label maps to the last drive carrying
      it, and nothing else is a key of the registry. */
  lemma SystemRootsLookup(s: string, k: string)
    ensures Lookup(SystemRoots(Windows, Loaded(s)), k) == LastWithLabel(Drives(s), k)
  {
    FromDrivesLookup(Drives(s), k);
  }

  /** Every root path in the registry is one of the drives. */
  lemma {:induction false} FromDrivesValues(ds: seq<string>, i: nat)
    requires i < |FromDrives(ds)|
    ensures FromDrives(ds)[i].1 in ds
  {
    var m := FromDrives(ds);
    FromDrivesLookup(ds, m[i].0);
    LookupFound(m, i);
    LastWithLabelIn(ds, m[i].0);
  }

  lemma {:induction false} LastWithLabelIn(ds: seq<string>, k: string)
    ensures LastWithLabel(ds, k).Some? ==> LastWithLabel(ds, k).value in ds
  {
    if ds != [] && DriveLabel(ds[|ds| - 1]) != k {
      LastWithLabelIn(ds[..|ds| - 1], k);
    }
  }
}
