/** Size-based log rotation over a file system seen as a map from names to contents. */
module RotatingSink {
  import opened Wrappers
  import opened Decimals

  /** The last position of c, or -1. */
  function LastIndexOf(s: string, c: char): (r: int)
    ensures -1 <= r < |s| && (r >= 0 ==> s[r] == c) && forall i :: r < i < |s| ==> s[i] != c
  {
    if s == [] then -1 else if s[|s| - 1] == c then |s| - 1 else LastIndexOf(s[..|s| - 1], c)
  }

  /** An extension: a last dot within the last part of the path, not at its start and not at its end. */
  ghost predicate ExtensionAt(name: string, k: int) {
    && 0 < k < |name| - 1 && name[k] == '.' && name[k - 1] != '/'
    && forall i :: k < i < |name| ==> name[i] != '.' && name[i] != '/'
  }

  /** Splits a path before its extension; a name with no extension, or a hidden one, stays whole. */
  function SplitByExtension(name: string): (r: (string, string))
    ensures r.0 + r.1 == name
    ensures if r.1 != "" then ExtensionAt(name, |r.0|) else forall k :: !ExtensionAt(name, k)
  {
    var dot := LastIndexOf(name, '.');
    if dot == -1 || dot == 0 || dot == |name| - 1 then (name, "")
    else
      var slash := LastIndexOf(name, '/');
      if slash != -1 && slash >= dot - 1 then (name, "") else (name[..dot], name[dot..])
  }

  function CalcFilename(base: string, index: nat): string {
    if index == 0 then base
    else
      var (stem, ext) := SplitByExtension(base);
      stem + "." + ToDigits(index) + ext
  }

  /** The index goes before the extension, or to the end of a name without one. */
  lemma NameForm(base: string, index: nat, k: int)
    requires index > 0
    ensures ExtensionAt(base, k) ==> CalcFilename(base, index) == base[..k] + "." + ToDigits(index) + base[k..]
    ensures (forall i :: !ExtensionAt(base, i)) ==> CalcFilename(base, index) == base + "." + ToDigits(index)
  {
    var (stem, ext) := SplitByExtension(base);
    if ExtensionAt(base, k) {
      assert ext != "" && ExtensionAt(base, |stem|);
      OneExtension(base, k, |stem|);
    } else if ext == "" {
      assert stem + ext == stem;
    }
  }

  lemma OneExtension(base: string, k: int, l: int)
    requires ExtensionAt(base, k) && ExtensionAt(base, l)
    ensures k == l
  {}

  /** No two indices share a file name. */
  lemma NamesDiffer(base: string, i: nat, j: nat)
    requires CalcFilename(base, i) == CalcFilename(base, j)
    ensures i == j
  {
    var (stem, ext) := SplitByExtension(base);
    if i > 0 && j > 0 {
      var a, b := CalcFilename(base, i), CalcFilename(base, j);
      var k := |stem| + 1;
      assert a[k..k + |ToDigits(i)|] == ToDigits(i) && b[k..k + |ToDigits(j)|] == ToDigits(j);
      assert |ToDigits(i)| == |ToDigits(j)|;
      DigitsInjective(i, j);
    }
  }

  type Disk = map<string, string>

  /** The files numbered from 0, the current one, upwards are there with these contents, or are not there. */
  ghost predicate Stores(disk: Disk, base: string, slots: seq<Option<string>>) {
    forall j :: 0 <= j < |slots| ==> Read(disk, CalcFilename(base, j)) == slots[j]
  }

  function Read(disk: Disk, name: string): Option<string> {
    if name in disk then Some(disk[name]) else None
  }

  /** Deleting the target and renaming the source onto it. */
  function Renamed(disk: Disk, src: string, target: string): Disk
    requires src in disk
  {
    (disk - {target, src})[target := disk[src]]
  }

  /**
   * The renaming loop is at index i: what was below i is still there, the rest has moved up by one. The
   * topmost file only gives way to a file moved onto it.
   */
  function Moved<T>(slots: seq<Option<T>>, i: nat): (r: seq<Option<T>>)
    requires i < |slots|
    ensures |r| == |slots|
  {
    var m := |slots| - 1;
    seq(|slots|, j requires 0 <= j < |slots| =>
      if j < i || j == i == m then slots[j]
      else if j == i then None
      else if j < m || slots[m - 1].Some? then slots[j - 1]
      else slots[m])
  }

  lemma MoveStep(disk: Disk, base: string, slots: seq<Option<string>>, i: nat)
    requires 0 < i < |slots| && Stores(disk, base, Moved(slots, i))
    ensures var src, target := CalcFilename(base, i - 1), CalcFilename(base, i);
            && (src in disk <==> slots[i - 1].Some?)
            && Stores(if src in disk then Renamed(disk, src, target) else disk, base, Moved(slots, i - 1))
  {
    var src, target := CalcFilename(base, i - 1), CalcFilename(base, i);
    Stored(disk, base, Moved(slots, i), i - 1);
    var disk' := if src in disk then Renamed(disk, src, target) else disk;
    MovePair(disk, base, slots, i);
    forall j | 0 <= j < |slots|
      ensures Read(disk', CalcFilename(base, j)) == Moved(slots, i - 1)[j]
    {
      if j != i - 1 && j != i {
        MoveOther(disk, base, slots, i, j);
        assert Read(disk', CalcFilename(base, j)) == Read(disk, CalcFilename(base, j));
      }
    }
  }

  lemma MovePair(disk: Disk, base: string, slots: seq<Option<string>>, i: nat)
    requires 0 < i < |slots| && Stores(disk, base, Moved(slots, i))
    ensures var src, target := CalcFilename(base, i - 1), CalcFilename(base, i);
            var disk' := if src in disk then Renamed(disk, src, target) else disk;
            Read(disk', src) == Moved(slots, i - 1)[i - 1] && Read(disk', target) == Moved(slots, i - 1)[i]
  {
    if CalcFilename(base, i - 1) == CalcFilename(base, i) { NamesDiffer(base, i - 1, i); }
    Stored(disk, base, Moved(slots, i), i - 1);
    Stored(disk, base, Moved(slots, i), i);
  }

  lemma MoveOther(disk: Disk, base: string, slots: seq<Option<string>>, i: nat, j: nat)
    requires 0 < i < |slots| && j < |slots| && j != i && j != i - 1 && Stores(disk, base, Moved(slots, i))
    ensures var src, target, name := CalcFilename(base, i - 1), CalcFilename(base, i), CalcFilename(base, j);
            && name != src && name != target
            && Read(disk, name) == Moved(slots, i - 1)[j]
  {
    if CalcFilename(base, j) == CalcFilename(base, i - 1) { NamesDiffer(base, j, i - 1); }
    if CalcFilename(base, j) == CalcFilename(base, i) { NamesDiffer(base, j, i); }
    assert Read(disk, CalcFilename(base, j)) == Moved(slots, i)[j];
  }

  /** The names of all the files the sink may use. */
  ghost function Names(base: string, maxFiles: nat): set<string> {
    set j | 0 <= j <= maxFiles :: CalcFilename(base, j)
  }

  /** Files of other names are left alone. */
  lemma RenamedElsewhere(disk: Disk, base: string, maxFiles: nat, i: nat)
    requires 0 < i <= maxFiles && CalcFilename(base, i - 1) in disk
    ensures Renamed(disk, CalcFilename(base, i - 1), CalcFilename(base, i)) - Names(base, maxFiles)
            == disk - Names(base, maxFiles)
  {}

  /** Writing the current file changes its slot and no other file. */
  lemma WriteCurrent(disk: Disk, base: string, slots: seq<Option<string>>, text: string)
    requires slots != [] && Stores(disk, base, slots)
    ensures Stores(disk[base := text], base, slots[0 := Some(text)])
    ensures disk[base := text] - Names(base, |slots| - 1) == disk - Names(base, |slots| - 1)
  {
    assert CalcFilename(base, 0) == base && base in Names(base, |slots| - 1);
    forall j | 0 < j < |slots|
      ensures Read(disk[base := text], CalcFilename(base, j)) == slots[j]
    {
      if CalcFilename(base, j) == base { assert false; }
    }
  }

  /** The bytes of a sequence of messages. */
  function Bytes(msgs: seq<string>): string {
    if msgs == [] then "" else Bytes(msgs[..|msgs| - 1]) + msgs[|msgs| - 1]
  }

  type File = Option<seq<string>>

  function Contents(files: seq<File>): (c: seq<Option<string>>)
    ensures |c| == |files|
    ensures forall j :: 0 <= j < |files| ==> c[j] == if files[j].Some? then Some(Bytes(files[j].value)) else None
  {
    seq(|files|, j requires 0 <= j < |files| => if files[j].Some? then Some(Bytes(files[j].value)) else None)
  }

  function Held(f: File): seq<string> {
    if f.Some? then f.value else []
  }

  /** The messages of all files, oldest file first; file 0 is the newest. */
  function Chronological(files: seq<File>): seq<string> {
    if files == [] then [] else Chronological(files[1..]) + Held(files[0])
  }

  /** Which messages each file holds, and those no file holds any more. */
  datatype Log = Log(files: seq<File>, dropped: seq<string>)

  /** What the topmost file gives up: nothing, if there is a gap below it. */
  function Lost(files: seq<File>): seq<string>
    requires files != []
  {
    var m := |files| - 1;
    if m == 0 || files[m - 1].Some? then Held(files[m]) else []
  }

  function Rotated(log: Log): Log
    requires log.files != []
  {
    Log(Moved(log.files, 0)[0 := Some([])], log.dropped + Lost(log.files))
  }

  function Written(log: Log, msg: string): Log
    requires log.files != []
  {
    log.(files := log.files[0 := Some(Held(log.files[0]) + [msg])])
  }

  predicate MustRotate(log: Log, msg: string, maxSize: nat)
    requires log.files != []
  {
    |Bytes(Held(log.files[0]))| + |msg| > maxSize && |Bytes(Held(log.files[0]))| > 0
  }

  function Sunk(log: Log, msg: string, maxSize: nat): Log
    requires log.files != []
  {
    Written(if MustRotate(log, msg, maxSize) then Rotated(log) else log, msg)
  }

  function SunkAll(log: Log, msgs: seq<string>, maxSize: nat): (r: Log)
    requires log.files != []
    ensures r.files != []
    decreases |msgs|
  {
    if msgs == [] then log else SunkAll(Sunk(log, msgs[0], maxSize), msgs[1..], maxSize)
  }

  /** The files an earlier run left; each counts as a single message. The current one is created if need be. */
  function LeftOver(slots: seq<Option<string>>): (files: seq<File>)
    ensures |files| == |slots|
  {
    seq(|slots|, j requires 0 <= j < |slots| =>
      if slots[j].Some? then Some([slots[j].value]) else if j == 0 then Some([]) else None)
  }

  function Opened(slots: seq<Option<string>>, rotateOnOpen: bool): Log
    requires slots != []
  {
    var log := Log(LeftOver(slots), []);
    if rotateOnOpen && |Bytes(Held(log.files[0]))| > 0 then Rotated(log) else log
  }

  /** Within the size limit, or a single message that is larger by itself. */
  ghost predicate Fits(f: seq<string>, maxSize: nat) {
    |Bytes(f)| <= maxSize || exists k :: 0 <= k < |f| && f[k] != "" && forall i :: 0 <= i < |f| && i != k ==> f[i] == ""
  }

  ghost predicate Inv(log: Log, maxSize: nat, maxFiles: nat, history: seq<string>) {
    && |log.files| == maxFiles + 1 && log.files[0].Some?
    && log.dropped + Chronological(log.files) == history
    && forall j :: 0 <= j < |log.files| ==> Fits(Held(log.files[j]), maxSize)
  }

  lemma {:induction false} ChronologicalConcat(a: seq<File>, b: seq<File>)
    ensures Chronological(a + b) == Chronological(b) + Chronological(a)
    decreases |a|
  {
    if a == [] {
      assert a + b == b;
    } else {
      ChronologicalConcat(a[1..], b);
      assert (a + b)[1..] == a[1..] + b;
    }
  }

  lemma ChronologicalOne(f: File)
    ensures Chronological([f]) == Held(f)
  {
    assert Chronological([f][1..]) == [];
  }

  lemma BytesSnoc(msgs: seq<string>, m: string)
    ensures Bytes(msgs + [m]) == Bytes(msgs) + m
  {
    assert (msgs + [m])[..|msgs|] == msgs;
  }

  lemma {:induction false} BytesEmpty(msgs: seq<string>)
    requires Bytes(msgs) == ""
    ensures forall i :: 0 <= i < |msgs| ==> msgs[i] == ""
  {
    if msgs != [] { BytesEmpty(msgs[..|msgs| - 1]); }
  }

  /** A message always ends up in a file that still fits. */
  lemma WrittenFits(f: seq<string>, msg: string, maxSize: nat)
    requires |Bytes(f)| + |msg| <= maxSize || Bytes(f) == ""
    ensures Fits(f + [msg], maxSize)
  {
    BytesSnoc(f, msg);
    if |Bytes(f + [msg])| > maxSize {
      BytesEmpty(f);
      var g := f + [msg];
      assert g[|f|] == msg && msg != "";
      assert forall i :: 0 <= i < |g| && i != |f| ==> g[i] == "";
    }
  }

  lemma ChronologicalSnoc(files: seq<File>, n: nat)
    requires 0 < n <= |files|
    ensures Chronological(files[..n]) == Held(files[n - 1]) + Chronological(files[..n - 1])
  {
    assert files[..n] == files[..n - 1] + [files[n - 1]];
    ChronologicalConcat(files[..n - 1], [files[n - 1]]);
    ChronologicalOne(files[n - 1]);
  }

  /** After moving up, the files behind the new one are the old ones, but for one of the two topmost. */
  lemma MovedParts(files: seq<File>)
    requires |files| > 1
    ensures var m := |files| - 1;
            Chronological(Moved(files, 0)[0 := Some([])])
            == Held(if files[m - 1].Some? then files[m - 1] else files[m]) + Chronological(files[..m - 1])
  {
    var m := |files| - 1;
    var empty: File := Some([]);
    var rest := files[..m - 1] + [if files[m - 1].Some? then files[m - 1] else files[m]];
    assert Moved(files, 0)[0 := Some([])] == [empty] + rest;
    assert ([empty] + rest)[1..] == rest;
    ChronologicalSnoc(rest, m);
    assert rest[..m] == rest && rest[..m - 1] == files[..m - 1];
  }

  /** A rotation reorders nothing; only the messages lost from the topmost file go. */
  lemma MovedChronological(files: seq<File>)
    requires files != []
    ensures Chronological(files) == Lost(files) + Chronological(Moved(files, 0)[0 := Some([])])
  {
    var m := |files| - 1;
    assert files[..m + 1] == files;
    ChronologicalSnoc(files, m + 1);
    if m == 0 {
      assert Moved(files, 0)[0 := Some([])] == [Some([])];
      ChronologicalOne(Some([]));
      assert files[..0] == [];
    } else {
      ChronologicalSnoc(files, m);
      MovedParts(files);
    }
  }

  lemma RotatedContents(log: Log)
    requires log.files != []
    ensures Contents(Rotated(log).files) == Moved(Contents(log.files), 0)[0 := Some("")]
    ensures Held(Rotated(log).files[0]) == []
  {}

  /** Every file moves up by one; the topmost gives way only to a file moved onto it. */
  ghost predicate MovedUp(disk: Disk, disk': Disk, base: string, maxFiles: nat) {
    forall j :: 0 < j <= maxFiles ==>
      Read(disk', CalcFilename(base, j))
      == if j < maxFiles || Read(disk, CalcFilename(base, maxFiles - 1)).Some? then Read(disk, CalcFilename(base, j - 1))
         else Read(disk, CalcFilename(base, maxFiles))
  }

  lemma StoredMovedUp(disk: Disk, disk': Disk, base: string, slots: seq<Option<string>>)
    requires slots != [] && Stores(disk, base, slots) && Stores(disk', base, Moved(slots, 0)[0 := Some("")])
    ensures MovedUp(disk, disk', base, |slots| - 1)
  {
    var m := |slots| - 1;
    forall j | 0 < j <= m
      ensures Read(disk', CalcFilename(base, j))
              == if j < m || Read(disk, CalcFilename(base, m - 1)).Some? then Read(disk, CalcFilename(base, j - 1))
                 else Read(disk, CalcFilename(base, m))
    {
      Stored(disk', base, Moved(slots, 0)[0 := Some("")], j);
      MovedAt(slots, j);
      Stored(disk, base, slots, m);
      Stored(disk, base, slots, m - 1);
      Stored(disk, base, slots, j - 1);
    }
  }

  lemma Stored(disk: Disk, base: string, slots: seq<Option<string>>, j: nat)
    requires Stores(disk, base, slots) && j < |slots|
    ensures Read(disk, CalcFilename(base, j)) == slots[j]
  {}

  lemma MovedAt(slots: seq<Option<string>>, j: nat)
    requires 0 < j < |slots|
    ensures var m := |slots| - 1;
            Moved(slots, 0)[0 := Some("")][j] == if j < m || slots[m - 1].Some? then slots[j - 1] else slots[m]
  {}

  lemma WriteKeepsMoved(disk: Disk, disk': Disk, base: string, maxFiles: nat, msg: string)
    requires MovedUp(disk, disk', base, maxFiles) && base in disk' && disk'[base] == ""
    ensures MovedUp(disk, disk'[base := disk'[base] + msg], base, maxFiles) && "" + msg == msg
  {
    forall j | 0 < j <= maxFiles
      ensures Read(disk'[base := disk'[base] + msg], CalcFilename(base, j)) == Read(disk', CalcFilename(base, j))
    {
      if CalcFilename(base, j) == CalcFilename(base, 0) { NamesDiffer(base, j, 0); }
    }
  }

  lemma WrittenContents(log: Log, msg: string)
    requires log.files != []
    ensures var text := Bytes(Held(log.files[0])) + msg;
            && Contents(Written(log, msg).files) == Contents(log.files)[0 := Some(text)]
            && Bytes(Held(Written(log, msg).files[0])) == text
  {
    BytesSnoc(Held(log.files[0]), msg);
  }

  lemma RotatedKeeps(log: Log, maxSize: nat, maxFiles: nat, history: seq<string>)
    requires Inv(log, maxSize, maxFiles, history)
    ensures Inv(Rotated(log), maxSize, maxFiles, history)
  {
    MovedChronological(log.files);
    var files' := Rotated(log).files;
    assert (log.dropped + Lost(log.files)) + Chronological(files')
           == log.dropped + (Lost(log.files) + Chronological(files'));
    assert Fits([], maxSize);
    forall j | 0 < j < |files'|
      ensures Fits(Held(files'[j]), maxSize)
    {
      assert files'[j] == log.files[j - 1] || files'[j] == log.files[j];
    }
  }

  lemma WrittenKeeps(log: Log, msg: string, maxSize: nat, maxFiles: nat, history: seq<string>)
    requires Inv(log, maxSize, maxFiles, history)
    requires |Bytes(Held(log.files[0]))| + |msg| <= maxSize || Bytes(Held(log.files[0])) == ""
    ensures Inv(Written(log, msg), maxSize, maxFiles, history + [msg])
  {
    var files, rest := log.files, log.files[1..];
    var first := Held(files[0]);
    WrittenFits(first, msg, maxSize);
    assert Written(log, msg).files[1..] == rest;
    assert log.dropped + (Chronological(rest) + (first + [msg])) == (log.dropped + (Chronological(rest) + first)) + [msg];
  }

  lemma SunkKeeps(log: Log, msg: string, maxSize: nat, maxFiles: nat, history: seq<string>)
    requires Inv(log, maxSize, maxFiles, history)
    ensures Inv(Sunk(log, msg, maxSize), maxSize, maxFiles, history + [msg])
  {
    if MustRotate(log, msg, maxSize) {
      RotatedKeeps(log, maxSize, maxFiles, history);
      WrittenKeeps(Rotated(log), msg, maxSize, maxFiles, history);
    } else {
      WrittenKeeps(log, msg, maxSize, maxFiles, history);
    }
  }

  lemma {:induction false} SunkAllKeeps(log: Log, msgs: seq<string>, maxSize: nat, maxFiles: nat, history: seq<string>)
    requires Inv(log, maxSize, maxFiles, history)
    ensures Inv(SunkAll(log, msgs, maxSize), maxSize, maxFiles, history + msgs)
    decreases |msgs|
  {
    if msgs == [] {
      assert history + msgs == history;
    } else {
      SunkKeeps(log, msgs[0], maxSize, maxFiles, history);
      SunkAllKeeps(Sunk(log, msgs[0], maxSize), msgs[1..], maxSize, maxFiles, history + [msgs[0]]);
      assert (history + [msgs[0]]) + msgs[1..] == history + msgs;
    }
  }

  /** The current file holds this, and together with the messages it is within the limit. */
  ghost predicate Fitting(log: Log, held: seq<string>, msgs: seq<string>, maxSize: nat) {
    log.files != [] && log.files[0] == Some(held) && |Bytes(held)| + |Bytes(msgs)| <= maxSize
  }

  lemma FirstFits(log: Log, held: seq<string>, msgs: seq<string>, maxSize: nat) returns (log': Log)
    requires Fitting(log, held, msgs, maxSize) && msgs != []
    ensures Fitting(log', held + [msgs[0]], msgs[1..], maxSize)
    ensures log'.dropped == log.dropped && log'.files[1..] == log.files[1..]
    ensures SunkAll(log, msgs, maxSize) == SunkAll(log', msgs[1..], maxSize)
  {
    BytesFirst(held, msgs[0], msgs[1..]);
    assert msgs == [msgs[0]] + msgs[1..];
    log' := Sunk(log, msgs[0], maxSize);
  }

  /** Messages that fit together with what the current file holds all go there, and nothing else changes. */
  lemma {:induction false} FittingStay(log: Log, held: seq<string>, msgs: seq<string>, maxSize: nat)
    requires Fitting(log, held, msgs, maxSize)
    ensures var log' := SunkAll(log, msgs, maxSize);
            && log'.dropped == log.dropped && log'.files[1..] == log.files[1..]
            && log'.files[0] == Some(held + msgs)
    decreases |msgs|
  {
    if msgs == [] {
      assert held + msgs == held;
    } else {
      var log1 := FirstFits(log, held, msgs, maxSize);
      FittingStay(log1, held + [msgs[0]], msgs[1..], maxSize);
      assert (held + [msgs[0]]) + msgs[1..] == held + msgs;
    }
  }

  lemma BytesFirst(held: seq<string>, m: string, rest: seq<string>)
    ensures |Bytes(held + [m])| == |Bytes(held)| + |m|
    ensures |Bytes([m] + rest)| == |m| + |Bytes(rest)|
  {
    BytesSnoc(held, m);
    BytesSnoc([], m);
    assert [] + [m] == [m];
    BytesConcat([m], rest);
  }

  lemma SingleFits(x: string, maxSize: nat)
    ensures Fits([x], maxSize)
  {
    BytesSnoc([], x);
    assert [] + [x] == [x];
    if |x| > maxSize { assert [x][0] != ""; }
  }

  lemma OpenedKeeps(slots: seq<Option<string>>, rotateOnOpen: bool, maxSize: nat)
    requires slots != []
    ensures Inv(Opened(slots, rotateOnOpen), maxSize, |slots| - 1, Chronological(LeftOver(slots)))
  {
    var log := Log(LeftOver(slots), []);
    forall j | 0 <= j < |slots|
      ensures Fits(Held(log.files[j]), maxSize)
    {
      if slots[j].Some? { SingleFits(slots[j].value, maxSize); }
    }
    assert [] + Chronological(log.files) == Chronological(log.files);
    RotatedKeeps(log, maxSize, |slots| - 1, Chronological(log.files));
  }

  /**
   * Whatever files an earlier run left, and after any messages: the files from oldest to newest hold a suffix
   * of what was left and what was logged, cut between messages; each fits or holds one oversized message.
   */
  lemma FilesHoldSuffix(slots: seq<Option<string>>, rotateOnOpen: bool, msgs: seq<string>, maxSize: nat)
    requires slots != []
    ensures var log := SunkAll(Opened(slots, rotateOnOpen), msgs, maxSize);
            && log.dropped + Chronological(log.files) == Chronological(LeftOver(slots)) + msgs
            && |log.files| == |slots|
            && forall j :: 0 <= j < |log.files| ==> Fits(Held(log.files[j]), maxSize)
  {
    OpenedKeeps(slots, rotateOnOpen, maxSize);
    SunkAllKeeps(Opened(slots, rotateOnOpen), msgs, maxSize, |slots| - 1, Chronological(LeftOver(slots)));
  }

  lemma {:induction false} BytesConcat(a: seq<string>, b: seq<string>)
    ensures Bytes(a + b) == Bytes(a) + Bytes(b)
    decreases |b|
  {
    if b == [] {
      assert a + b == a;
    } else {
      var n := |b| - 1;
      BytesConcat(a, b[..n]);
      assert a + b == (a + b[..n]) + [b[n]];
      BytesSnoc(a + b[..n], b[n]);
    }
  }

  /** The contents of the files numbered below n that are there, the oldest first. */
  function OnDisk(disk: Disk, base: string, n: nat): string {
    if n == 0 then ""
    else
      var f := Read(disk, CalcFilename(base, n - 1));
      (if f.Some? then f.value else "") + OnDisk(disk, base, n - 1)
  }

  lemma {:induction false} DiskIsChronological(disk: Disk, base: string, files: seq<File>, n: nat)
    requires n <= |files| && Stores(disk, base, Contents(files))
    ensures OnDisk(disk, base, n) == Bytes(Chronological(files[..n]))
  {
    if n > 0 {
      DiskIsChronological(disk, base, files, n - 1);
      ChronologicalSnoc(files, n);
      BytesConcat(Held(files[n - 1]), Chronological(files[..n - 1]));
      assert Read(disk, CalcFilename(base, n - 1)) == Contents(files)[n - 1];
    }
  }

  /** The bytes on disk, oldest file first, are the output after the dropped messages, which are its first ones. */
  lemma DiskHoldsSuffix(disk: Disk, base: string, log: Log, maxSize: nat, maxFiles: nat, history: seq<string>)
    requires Inv(log, maxSize, maxFiles, history) && Stores(disk, base, Contents(log.files))
    ensures log.dropped <= history && OnDisk(disk, base, maxFiles + 1) == Bytes(history[|log.dropped|..])
    ensures Bytes(log.dropped) + OnDisk(disk, base, maxFiles + 1) == Bytes(history)
  {
    DiskIsChronological(disk, base, log.files, maxFiles + 1);
    assert log.files[..maxFiles + 1] == log.files;
    BytesConcat(log.dropped, Chronological(log.files));
  }

  /** The files of the sink as they are found on a disk. */
  function Found(disk: Disk, base: string, maxFiles: nat): (slots: seq<Option<string>>)
    ensures |slots| == maxFiles + 1
  {
    seq(maxFiles + 1, j requires 0 <= j <= maxFiles => Read(disk, CalcFilename(base, j)))
  }

  lemma FoundContents(disk: Disk, base: string, maxFiles: nat)
    ensures var text := if base in disk then disk[base] else "";
            Contents(LeftOver(Found(disk, base, maxFiles))) == Found(disk, base, maxFiles)[0 := Some(text)]
  {
    var slots := Found(disk, base, maxFiles);
    forall j | 0 <= j <= maxFiles && slots[j].Some?
      ensures Bytes([slots[j].value]) == slots[j].value
    {
      BytesSnoc([], slots[j].value);
      assert [] + [slots[j].value] == [slots[j].value];
    }
  }

  class RotatingFileSink {
    const base: string
    const maxSize: nat
    const maxFiles: nat
    var currentSize: nat
    var disk: Disk
    ghost var log: Log
    ghost var history: seq<string>

    /** The size kept in memory is that of the current file. */
    ghost predicate Valid()
      reads this
    {
      Holding() && currentSize == |disk[base]|
    }

    /** The disk holds exactly the logged files, and they are as they should be after the messages so far. */
    ghost predicate Holding()
      reads this
    {
      && Inv(log, maxSize, maxFiles, history)
      && Stores(disk, base, Contents(log.files))
      && base in disk && disk[base] == Bytes(Held(log.files[0]))
    }

    /** Opens the sink over the files that are there; a zero size or too many files are refused. */
    static method Open(base: string, maxSize: nat, maxFiles: nat, rotateOnOpen: bool, disk: Disk)
        returns (sink: RotatingFileSink?)
      ensures sink == null <==> maxSize == 0 || maxFiles > 200000
      ensures sink != null ==> fresh(sink) && sink.Valid() && sink.log == Opened(Found(disk, base, maxFiles), rotateOnOpen)
      ensures sink != null && !(rotateOnOpen && base in disk && disk[base] != "")
              ==> sink.disk == disk[base := if base in disk then disk[base] else ""]
      ensures sink != null && rotateOnOpen && base in disk && disk[base] != ""
              ==> Read(sink.disk, base) == Some("") && MovedUp(disk, sink.disk, base, maxFiles)
      ensures sink != null ==> sink.history == Chronological(LeftOver(Found(disk, base, maxFiles)))
      ensures sink != null ==> sink.disk - Names(base, maxFiles) == disk - Names(base, maxFiles)
      ensures sink != null ==> sink.base == base && sink.maxSize == maxSize && sink.maxFiles == maxFiles
    {
      if maxSize == 0 || maxFiles > 200000 { return null; }
      ghost var slots := Found(disk, base, maxFiles);
      sink := new RotatingFileSink(base, maxSize, maxFiles, disk);
      assert base in disk ==> disk[base := disk[base]] == disk;
      assert sink.log == Opened(slots, false) == Log(LeftOver(slots), []);
      assert sink.currentSize == |Bytes(Held(sink.log.files[0]))|;
      if rotateOnOpen && sink.currentSize > 0 {
        sink.Rotate();
        sink.currentSize := 0;
      }
    }

    /** Opens the current file, creating it if it is not there, and asks for its size. */
    constructor (base: string, maxSize: nat, maxFiles: nat, disk: Disk)
      ensures Valid() && log == Opened(Found(disk, base, maxFiles), false)
      ensures this.disk == disk[base := if base in disk then disk[base] else ""]
      ensures history == Chronological(log.files) && this.disk - Names(base, maxFiles) == disk - Names(base, maxFiles)
      ensures this.base == base && this.maxSize == maxSize && this.maxFiles == maxFiles
    {
      var text := if base in disk then disk[base] else "";
      this.base, this.maxSize, this.maxFiles := base, maxSize, maxFiles;
      this.disk := disk[base := text];
      currentSize := |text|;
      log := Opened(Found(disk, base, maxFiles), false);
      history := Chronological(LeftOver(Found(disk, base, maxFiles)));
      new;
      OpenedKeeps(Found(disk, base, maxFiles), false, maxSize);
      FoundContents(disk, base, maxFiles);
      WriteCurrent(disk, base, Found(disk, base, maxFiles), text);
      assert Contents(log.files)[0] == Some(text);
    }

    /** Moves every file up by one index, from the oldest, and starts an empty current file. */
    method Rotate()
      requires Holding()
      modifies this`disk, this`log
      ensures Holding() && log == Rotated(old(log)) && disk[base] == "" && MovedUp(old(disk), disk, base, maxFiles)
      ensures disk - Names(base, maxFiles) == old(disk) - Names(base, maxFiles)
    {
      ghost var slots := Contents(log.files);
      var moved := RenameAll(disk, base, maxFiles, slots);
      RotatedKeeps(log, maxSize, maxFiles, history);
      RotatedContents(log);
      WriteCurrent(moved, base, Moved(slots, 0), "");
      StoredMovedUp(disk, moved[base := ""], base, slots);
      disk := moved[base := ""];
      log := Rotated(log);
    }

    /** The renaming loop, from the oldest index down. */
    static method RenameAll(disk: Disk, base: string, maxFiles: nat, ghost slots: seq<Option<string>>)
        returns (moved: Disk)
      requires |slots| == maxFiles + 1 && Stores(disk, base, slots)
      ensures Stores(moved, base, Moved(slots, 0))
      ensures moved - Names(base, maxFiles) == disk - Names(base, maxFiles)
    {
      moved := disk;
      assert Moved(slots, maxFiles) == slots;
      var i := maxFiles;
      while i > 0
        invariant 0 <= i <= maxFiles && Stores(moved, base, Moved(slots, i))
        invariant moved - Names(base, maxFiles) == disk - Names(base, maxFiles)
      {
        MoveStep(moved, base, slots, i);
        var src, target := CalcFilename(base, i - 1), CalcFilename(base, i);
        if src in moved {
          RenamedElsewhere(moved, base, maxFiles, i);
          moved := Renamed(moved, src, target);
        }
        i := i - 1;
      }
    }

    /** Appends to the current file if the message fits there or nothing is there; else the files move up first. */
    method SinkIt(msg: string)
      requires Valid()
      modifies this`disk, this`currentSize, this`log, this`history
      ensures base in disk && currentSize == |disk[base]|
      ensures |old(disk[base])| + |msg| <= maxSize || old(disk[base]) == ""
              ==> disk == old(disk)[base := old(disk[base]) + msg]
      ensures |old(disk[base])| + |msg| > maxSize && old(disk[base]) != ""
              ==> disk[base] == msg && MovedUp(old(disk), disk, base, maxFiles)
      ensures Valid() && log == Sunk(old(log), msg, maxSize) && history == old(history) + [msg]
      ensures disk - Names(base, maxFiles) == old(disk) - Names(base, maxFiles)
    {
      var newSize := currentSize + |msg|;
      assert MustRotate(log, msg, maxSize) <==> newSize > maxSize && |disk[base]| > 0;
      if newSize > maxSize {
        if |disk[base]| > 0 {
          Rotate();
          newSize := |msg|;
          WriteKeepsMoved(old(disk), disk, base, maxFiles, msg);
        }
      }
      Append(msg);
      currentSize := newSize;
    }

    /** Writes to the current file. */
    method Append(msg: string)
      requires Holding() && (|disk[base]| + |msg| <= maxSize || disk[base] == "")
      modifies this`disk, this`log, this`history
      ensures Holding() && log == Written(old(log), msg) && history == old(history) + [msg]
      ensures disk == old(disk)[base := old(disk[base]) + msg]
      ensures disk - Names(base, maxFiles) == old(disk) - Names(base, maxFiles)
    {
      WrittenContents(log, msg);
      WrittenKeeps(log, msg, maxSize, maxFiles, history);
      WriteCurrent(disk, base, Contents(log.files), disk[base] + msg);
      disk := disk[base := disk[base] + msg];
      log, history := Written(log, msg), history + [msg];
    }
  }
}
