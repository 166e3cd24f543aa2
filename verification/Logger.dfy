/** The rotating log: `n` files, `base.1.log` the oldest and `base.log` the one being written, on a file system that
    is a map from names to contents and refuses only to remove or rename what is not there. */
module Logger {
  import opened Numerals
  import opened Optional

  type Disk = map<string, string>

  // ----- Names ---------------------------------------------------------------------------

  function Numbered(base: string, i: nat): string {
    base + "." + Decimal(i) + ".log"
  }

  function Current(base: string): string {
    base + ".log"
  }

  /** The files from the oldest to the one being written. */
  function Slot(base: string, n: nat, k: nat): string
    requires k < n
  {
    if k == n - 1 then Current(base) else Numbered(base, k + 1)
  }

  lemma SlotsDiffer(base: string, n: nat, j: nat, k: nat)
    requires j < n && k < n && j != k
    ensures Slot(base, n, j) != Slot(base, n, k)
  {
    if j < n - 1 && k < n - 1 {
      if Numbered(base, j + 1) == Numbered(base, k + 1) {
        NumberIn(base, j + 1);
        NumberIn(base, k + 1);
        DecimalInjective(j + 1, k + 1);
      }
    }
  }

  lemma NumberIn(base: string, i: nat)
    ensures var s := Numbered(base, i); |s| >= |base| + 5 && s[|base| + 1..|s| - 4] == Decimal(i)
  {
    DecimalIsNumeral(i);
  }

  // ----- Files in order ----------------------------------------------------------------------

  function Joined(files: seq<string>): string {
    if files == [] then "" else Joined(files[..|files| - 1]) + files[|files| - 1]
  }

  lemma JoinedOneMore(files: seq<string>, file: string)
    ensures Joined(files + [file]) == Joined(files) + file
  {
    assert (files + [file])[..|files + [file]| - 1] == files;
  }

  function Tail(files: seq<string>, n: nat): seq<string>
    requires n <= |files|
  {
    files[|files| - n..]
  }

  /** What a rotation makes of the contents. */
  function Rotated(contents: seq<string>): seq<string>
    requires |contents| > 0
  {
    contents[1..] + [""]
  }

  function WithNew(files: seq<string>): seq<string> {
    files + [""]
  }

  function Extended(files: seq<string>, text: string): seq<string>
    requires |files| > 0
  {
    files[|files| - 1 := files[|files| - 1] + text]
  }

  lemma ExtendedIs(files: seq<string>, text: string)
    requires |files| > 0
    ensures Extended(files, text) == files[..|files| - 1] + [files[|files| - 1] + text]
  {
  }

  lemma Associate(a: string, b: string, c: string)
    ensures a + (b + c) == (a + b) + c
  {
  }

  lemma JoinedExtended(files: seq<string>, text: string)
    requires |files| > 0
    ensures Joined(Extended(files, text)) == Joined(files) + text
  {
    var front, file := files[..|files| - 1], files[|files| - 1];
    ExtendedIs(files, text);
    JoinedOneMore(front, file + text);
    Associate(Joined(front), file, text);
    hide Extended;
  }

  lemma {:induction false} JoinedSplit(a: seq<string>, b: seq<string>)
    ensures Joined(a + b) == Joined(a) + Joined(b)
    decreases |b|
  {
    if b == [] {
      assert a + b == a;
    } else {
      var front, last := b[..|b| - 1], b[|b| - 1];
      assert a + b == (a + front) + [last];
      JoinedOneMore(a + front, last);
      JoinedSplit(a, front);
      assert (Joined(a) + Joined(front)) + last == Joined(a) + (Joined(front) + last);
    }
  }

  lemma NewFile(files: seq<string>, n: nat)
    requires 1 <= n <= |files|
    ensures |WithNew(files)| == |files| + 1 && Tail(WithNew(files), n) == Rotated(Tail(files, n))
    ensures Joined(WithNew(files)) == Joined(files)
    ensures WithNew(files)[|files|] == ""
  {
    JoinedOneMore(files, "");
  }

  /** From place `from` on every file has at most `bound` bytes. */
  predicate Within(files: seq<string>, from: nat, bound: int) {
    forall i :: from <= i < |files| ==> |files[i]| <= bound
  }

  lemma NewWithin(files: seq<string>, from: nat, bound: int)
    requires Within(files, from, bound) && bound >= 0
    ensures Within(WithNew(files), from, bound)
  {
  }

  lemma TailExtended(files: seq<string>, n: nat, text: string)
    requires 1 <= n <= |files|
    ensures Tail(Extended(files, text), n) == Extended(Tail(files, n), text)
  {
  }

  /** All files exist. */
  predicate Complete(disk: Disk, base: string, n: nat) {
    forall k: nat {:trigger Slot(base, n, k)} :: k < n ==> Slot(base, n, k) in disk
  }

  function Contents(disk: Disk, base: string, n: nat): (s: seq<string>)
    requires Complete(disk, base, n)
    ensures |s| == n
  {
    seq(n, k requires 0 <= k < n => disk[Slot(base, n, k)])
  }

  lemma ContentsExtended(disk: Disk, base: string, n: nat, text: string)
    requires n >= 1 && Complete(disk, base, n)
    ensures Current(base) in disk
    ensures var next := disk[Current(base) := disk[Current(base)] + text];
      Complete(next, base, n) && Contents(next, base, n) == Extended(Contents(disk, base, n), text)
  {
    assert Slot(base, n, n - 1) == Current(base);
    forall k: nat | k < n - 1 ensures Slot(base, n, k) != Current(base) {
      SlotsDiffer(base, n, k, n - 1);
    }
  }

  // ----- Rotation ---------------------------------------------------------------------------

  predicate SameFile(disk: Disk, was: Disk, name: string) {
    (name in disk <==> name in was) && (name in disk ==> disk[name] == was[name])
  }

  /** The file at place `j` is the one that was at the next place. */
  predicate Follows(disk: Disk, was: Disk, base: string, n: nat, j: nat)
    requires j + 1 < n
  {
    Slot(base, n, j + 1) in was && Slot(base, n, j) in disk && disk[Slot(base, n, j)] == was[Slot(base, n, j + 1)]
  }

  predicate IsSlot(base: string, n: nat, name: string) {
    exists k: nat :: k < n && Slot(base, n, k) == name
  }

  /** Half way: the files before place `k` have moved one down, leaving `k - 1` free, and the others are in place. */
  ghost predicate Shifted(disk: Disk, was: Disk, base: string, n: nat, k: nat) {
    1 <= k <= n && Slot(base, n, 0) in was && Slot(base, n, k - 1) !in disk &&
    (forall j: nat {:trigger Follows(disk, was, base, n, j)} :: j + 1 < k ==> Follows(disk, was, base, n, j)) &&
    (forall j: nat {:trigger SameFile(disk, was, Slot(base, n, j))} ::
       k <= j < n ==> SameFile(disk, was, Slot(base, n, j))) &&
    forall name {:trigger SameFile(disk, was, name)} :: !IsSlot(base, n, name) ==> SameFile(disk, was, name)
  }

  function Renamed(disk: Disk, from: string, to: string): Disk
    requires from in disk
  {
    (disk - {from})[to := disk[from]]
  }

  lemma FirstGone(was: Disk, base: string, n: nat)
    requires n >= 2 && Slot(base, n, 0) in was
    ensures Shifted(was - {Slot(base, n, 0)}, was, base, n, 1)
  {
    var disk := was - {Slot(base, n, 0)};
    forall j: nat {:trigger SameFile(disk, was, Slot(base, n, j))} | 1 <= j < n
      ensures SameFile(disk, was, Slot(base, n, j))
    {
      SlotsDiffer(base, n, 0, j);
    }
    forall name {:trigger SameFile(disk, was, name)} | !IsSlot(base, n, name) ensures SameFile(disk, was, name) {
      assert name != Slot(base, n, 0);
    }
  }

  lemma NextShifted(disk: Disk, was: Disk, base: string, n: nat, k: nat)
    requires Shifted(disk, was, base, n, k) && k < n && Slot(base, n, k) in disk
    ensures Shifted(Renamed(disk, Slot(base, n, k), Slot(base, n, k - 1)), was, base, n, k + 1)
  {
    var a, b := Slot(base, n, k), Slot(base, n, k - 1);
    var next := Renamed(disk, a, b);
    SlotsDiffer(base, n, k, k - 1);
    assert SameFile(disk, was, a);
    forall j: nat {:trigger Follows(next, was, base, n, j)} | j + 1 < k + 1 ensures Follows(next, was, base, n, j) {
      if j + 1 < k {
        assert Follows(disk, was, base, n, j);
        SlotsDiffer(base, n, j, k);
        SlotsDiffer(base, n, j, k - 1);
      }
    }
    forall j: nat {:trigger SameFile(next, was, Slot(base, n, j))} | k + 1 <= j < n
      ensures SameFile(next, was, Slot(base, n, j))
    {
      assert SameFile(disk, was, Slot(base, n, j));
      SlotsDiffer(base, n, j, k);
      SlotsDiffer(base, n, j, k - 1);
    }
    forall name {:trigger SameFile(next, was, name)} | !IsSlot(base, n, name) ensures SameFile(next, was, name) {
      assert name != a && name != b && SameFile(disk, was, name);
    }
  }

  lemma MissingFirst(disk: Disk, base: string, n: nat)
    requires n > 0 && Slot(base, n, 0) !in disk
    ensures !Complete(disk, base, n)
  {
  }

  lemma Missing(disk: Disk, was: Disk, base: string, n: nat, k: nat)
    requires Shifted(disk, was, base, n, k) && k < n && Slot(base, n, k) !in disk
    ensures !Complete(was, base, n)
  {
    assert SameFile(disk, was, Slot(base, n, k));
  }

  lemma LastFree(disk: Disk, was: Disk, base: string, n: nat)
    requires Shifted(disk, was, base, n, n)
    ensures Current(base) !in disk
  {
  }

  /** All moved, and a new empty file in the last place. */
  lemma AllShifted(disk: Disk, was: Disk, base: string, n: nat)
    requires n >= 2 && Shifted(disk, was, base, n, n)
    ensures var next := disk[Current(base) := ""];
      Complete(was, base, n) && Complete(next, base, n) &&
      Contents(next, base, n) == Rotated(Contents(was, base, n)) &&
      forall name :: !IsSlot(base, n, name) ==> SameFile(next, was, name)
  {
    var next := disk[Current(base) := ""];
    assert Slot(base, n, n - 1) == Current(base);
    forall j: nat {:trigger Slot(base, n, j)} | j < n ensures Slot(base, n, j) in was {
      if j > 0 {
        assert Follows(disk, was, base, n, j - 1);
      }
    }
    forall j: nat | j < n - 1
      ensures Slot(base, n, j) in next && next[Slot(base, n, j)] == was[Slot(base, n, j + 1)]
    {
      assert Follows(disk, was, base, n, j);
      SlotsDiffer(base, n, j, n - 1);
    }
    forall name | !IsSlot(base, n, name) ensures SameFile(next, was, name) {
      assert name != Slot(base, n, n - 1) && SameFile(disk, was, name);
    }
  }

  // ----- The start ----------------------------------------------------------------------------

  function Existing(disk: Disk, name: string): string {
    if name in disk then disk[name] else ""
  }

  function Opened(disk: Disk, name: string): Disk {
    if name in disk then disk else disk[name := ""]
  }

  /** No file is lost or changed. */
  predicate Grown(disk: Disk, was: Disk) {
    forall f :: f in was ==> f in disk && disk[f] == was[f]
  }

  /** The contents at the start: those of the files there are, and nothing in the others. */
  ghost predicate IsFirst(contents: seq<string>, was: Disk, base: string, n: nat) {
    |contents| == n && forall k: nat {:trigger contents[k]} :: k < n ==> contents[k] == Existing(was, Slot(base, n, k))
  }

  /** The first `k` files are there. */
  ghost predicate Made(disk: Disk, was: Disk, base: string, n: nat, k: nat) {
    k <= n && Grown(disk, was) &&
    (forall f :: f in disk && f !in was ==> disk[f] == "") &&
    forall j: nat {:trigger Slot(base, n, j)} :: j < k ==> Slot(base, n, j) in disk
  }

  lemma MakeOne(disk: Disk, was: Disk, base: string, n: nat, k: nat)
    requires Made(disk, was, base, n, k) && k < n
    ensures Made(Opened(disk, Slot(base, n, k)), was, base, n, k + 1)
  {
  }

  lemma AllMade(disk: Disk, was: Disk, base: string, n: nat)
    requires Made(disk, was, base, n, n)
    ensures Complete(disk, base, n)
    ensures IsFirst(Contents(disk, base, n), was, base, n)
  {
  }

  // ----- The logger -------------------------------------------------------------------------------

  datatype Level = TRACE | DEBUG | INFO

  function Rank(level: Level): int {
    match level case TRACE => 0 case DEBUG => 1 case INFO => 2
  }

  datatype Outcome = Fine | Thrown(what: string)

  const BUFFER_SIZE := 1000

  /** What `vsnprintf` leaves in the buffer of the formatted text. */
  function Buffer(text: string): string {
    if |text| < BUFFER_SIZE then text else text[..BUFFER_SIZE - 1]
  }

  function Record(prefix: string, mark: char, text: string): string {
    prefix + " [" + [mark] + "] " + Buffer(text) + "\n"
  }

  function Max(x: nat, y: nat): nat {
    if x < y then y else x
  }

  /** The size the code adds up is one more than what it writes. */
  lemma RecordSize(prefix: string, mark: char, text: string)
    ensures |Record(prefix, mark, text)| + 1 == |prefix| + 5 + |Buffer(text)| + 2
  {
  }

  lemma ExtendedAt(files: seq<string>, text: string)
    requires |files| > 0
    ensures |Extended(files, text)| == |files|
    ensures forall i :: 0 <= i < |files| ==>
      Extended(files, text)[i] == if i == |files| - 1 then files[i] + text else files[i]
  {
  }

  function Longest(records: seq<string>): nat {
    if records == [] then 0 else Max(Longest(records[..|records| - 1]), |records[|records| - 1]|)
  }

  lemma LongestOneMore(records: seq<string>, record: string)
    ensures Longest(records + [record]) == Max(Longest(records), |record|)
  {
    assert (records + [record])[..|records + [record]| - 1] == records;
  }

  class GlobalLogger {
    var disk: Disk
    /** The file the stream is open on. */
    var stream: Option<string>
    var fileName: string
    var eachFileSize: nat
    var rotatingFileNum: nat
    var level: Level
    var currWriteFileSize: nat
    var initialized: bool

    /** Every file there has been since the start, the removed ones first; the contents at the start; the records
        accepted and the length of the longest; and how many of them went to the last file. */
    ghost var files: seq<string>
    ghost var initial: seq<string>
    ghost var accepted: seq<string>
    ghost var longest: nat
    ghost var lines: nat

    ghost predicate Settled()
      reads this
    {
      var n := rotatingFileNum;
      n >= 2 && eachFileSize >= 1 && Complete(disk, fileName, n) && stream == Some(Current(fileName)) &&
      |initial| == n <= |files| && Contents(disk, fileName, n) == Tail(files, n)
    }

    /** The files from first to last are what there was at the start followed by the records. */
    ghost predicate Ordered()
      reads this
    {
      Joined(files) == Joined(initial) + Joined(accepted) && longest == Longest(accepted)
    }

    /** The counter is the size of the last file and one more for each record. A file begun since the start is below
        the limit before its last record. */
    ghost predicate Bounded()
      reads this
    {
      |files| >= 1 && currWriteFileSize == |files[|files| - 1]| + lines &&
      Within(files, |initial|, eachFileSize - 1 + longest)
    }

    ghost predicate Valid()
      reads this
    {
      initialized ==> Settled() && Ordered() && Bounded()
    }

    constructor (disk: Disk)
      ensures Valid() && !initialized && this.disk == disk
    {
      this.disk := disk;
      initialized := false;
      stream, level := None, TRACE;
    }

    /** Opening for appending makes a missing file. */
    method Open(name: string)
      modifies this`disk, this`stream
      ensures stream == Some(name) && disk == Opened(old(disk), name)
    {
      stream := Some(name);
      if name !in disk {
        disk := disk[name := ""];
      }
    }

    /** The oldest file goes, every other file moves one down, and a new one is begun. It fails exactly when a file
        is missing. */
    method RotatingFile() returns (o: Outcome)
      requires rotatingFileNum >= 2
      modifies this`disk, this`stream, this`currWriteFileSize
      ensures o == Fine <==> Complete(old(disk), fileName, rotatingFileNum)
      ensures o == Fine ==> Complete(disk, fileName, rotatingFileNum)
      ensures o == Fine ==> stream == Some(Current(fileName)) && currWriteFileSize == 0
      ensures o == Fine ==>
        Contents(disk, fileName, rotatingFileNum) == Rotated(Contents(old(disk), fileName, rotatingFileNum))
      ensures o == Fine ==> forall name :: !IsSlot(fileName, rotatingFileNum, name) ==> SameFile(disk, old(disk), name)
    {
      ghost var n := rotatingFileNum;
      hide Shifted, Complete, Numbered, Current;
      stream := None;
      var name := Numbered(fileName, 1);
      assert name == Slot(fileName, n, 0);
      if name !in disk {
        MissingFirst(disk, fileName, n);
        return Thrown("remove [" + name + "] failed");
      }
      FirstGone(disk, fileName, n);
      disk := disk - {name};
      for i := 2 to rotatingFileNum
        invariant stream == None && Shifted(disk, old(disk), fileName, n, i - 1)
      {
        var from, to := Numbered(fileName, i), Numbered(fileName, i - 1);
        assert from == Slot(fileName, n, i - 1) && to == Slot(fileName, n, i - 2);
        if from !in disk {
          Missing(disk, old(disk), fileName, n, i - 1);
          return Thrown("rename [" + from + "] to [" + to + "] failed");
        }
        NextShifted(disk, old(disk), fileName, n, i - 1);
        disk := Renamed(disk, from, to);
      }
      var from, to := Current(fileName), Numbered(fileName, rotatingFileNum - 1);
      assert from == Slot(fileName, n, n - 1) && to == Slot(fileName, n, n - 2);
      if from !in disk {
        Missing(disk, old(disk), fileName, n, n - 1);
        return Thrown("rename [" + from + "] to [" + to + "] failed");
      }
      NextShifted(disk, old(disk), fileName, n, n - 1);
      disk := Renamed(disk, from, to);
      AllShifted(disk, old(disk), fileName, n);
      LastFree(disk, old(disk), fileName, n);
      Open(Current(fileName));
      currWriteFileSize := |disk[Current(fileName)]|;
      o := Fine;
    }

    /** The files are made if they are missing; a second call changes nothing. */
    method RotatingLoggerInit(name: string, fileSize: nat, fileNum: nat, level: Level) returns (o: Outcome)
      requires Valid()
      modifies this
      ensures Valid()
      ensures o == if fileSize < 1 then Thrown("file size should >= 1")
                   else if fileNum < 2 then Thrown("rotating file num should >= 2") else Fine
      ensures o != Fine || old(initialized) ==>
                  disk == old(disk) && initialized == old(initialized) && files == old(files)
      ensures o == Fine && !old(initialized) ==>
        initialized && fileName == name && eachFileSize == fileSize && rotatingFileNum == fileNum && this.level == level
      ensures o == Fine && !old(initialized) ==> files == initial && accepted == [] && lines == 0 && |files| == fileNum
      ensures o == Fine && !old(initialized) ==> IsFirst(files, old(disk), name, fileNum)
      ensures Grown(disk, old(disk))
    {
      if fileSize < 1 {
        return Thrown("file size should >= 1");
      }
      if fileNum < 2 {
        return Thrown("rotating file num should >= 2");
      }
      o := Fine;
      if !initialized {
        Setup(name, fileSize, fileNum, level);
      }
    }

    method Setup(name: string, fileSize: nat, fileNum: nat, level: Level)
      requires !initialized && fileSize >= 1 && fileNum >= 2
      modifies this
      ensures Valid() && initialized
      ensures fileName == name && eachFileSize == fileSize && rotatingFileNum == fileNum && this.level == level
      ensures files == initial && accepted == [] && lines == 0 && |files| == fileNum
      ensures IsFirst(files, old(disk), name, fileNum) && Grown(disk, old(disk))
    {
      ghost var contents := MakeFiles(name, fileNum);
      hide Made, Complete, Slot, Joined, Existing, Ordered, Tail, Contents, IsFirst, Grown;
      currWriteFileSize := |disk[Current(name)]|;
      fileName, eachFileSize, rotatingFileNum, this.level := name, fileSize, fileNum, level;
      initialized := true;
      Begin(contents);
    }

    ghost method Begin(contents: seq<string>)
      modifies this`initial, this`accepted, this`longest, this`files, this`lines
      ensures files == contents && initial == contents && accepted == [] && longest == 0 && lines == 0
      ensures Tail(files, |contents|) == contents && Ordered()
    {
      initial, accepted, longest, files, lines := contents, [], 0, contents, 0;
    }

    /** Every file is opened in turn, the one to be written last. */
    method MakeFiles(name: string, fileNum: nat) returns (ghost contents: seq<string>)
      requires fileNum >= 2
      modifies this`disk, this`stream
      ensures stream == Some(Current(name)) && Complete(disk, name, fileNum)
      ensures contents == Contents(disk, name, fileNum)
      ensures Current(name) in disk && contents[fileNum - 1] == disk[Current(name)]
      ensures IsFirst(contents, old(disk), name, fileNum) && Grown(disk, old(disk))
    {
      hide Numbered, Current;
      for i := 1 to fileNum
        invariant Made(disk, old(disk), name, fileNum, i - 1)
      {
        assert Numbered(name, i) == Slot(name, fileNum, i - 1);
        MakeOne(disk, old(disk), name, fileNum, i - 1);
        Open(Numbered(name, i));
        stream := None;
      }
      assert Current(name) == Slot(name, fileNum, fileNum - 1);
      MakeOne(disk, old(disk), name, fileNum, fileNum - 1);
      Open(Current(name));
      AllMade(disk, old(disk), name, fileNum);
      contents := Contents(disk, name, fileNum);
    }

    /** A full file is closed and a new one begun, which cannot fail; the files stay in order and in bounds. */
    method RotateIfFull() returns (o: Outcome)
      requires Valid() && initialized
      modifies this`disk, this`stream, this`currWriteFileSize, this`files, this`lines
      ensures Valid() && o == Fine && currWriteFileSize < eachFileSize
      ensures if old(currWriteFileSize >= eachFileSize) then files == WithNew(old(files)) && lines == 0
              else files == old(files) && lines == old(lines)
    {
      o := Fine;
      if currWriteFileSize >= eachFileSize {
        o := BeginFile();
      }
    }

    method BeginFile() returns (o: Outcome)
      requires Valid() && initialized
      modifies this`disk, this`stream, this`currWriteFileSize, this`files, this`lines
      ensures Valid() && o == Fine && currWriteFileSize == 0 && files == WithNew(old(files)) && lines == 0
    {
      hide Slot, Complete, Contents, Extended, Tail, Joined, IsSlot, SameFile, WithNew, Rotated, Longest;
      ghost var bigger := WithNew(files);
      NewFile(files, rotatingFileNum);
      NewWithin(files, |initial|, eachFileSize - 1 + longest);
      hide Within;
      o := RotatingFile();
      files, lines := bigger, 0;
    }

    /** The record goes to the end of the open file; a closed stream drops it. */
    method Emit(prefix: string, mark: char, text: string)
      requires Valid() && initialized && currWriteFileSize < eachFileSize
      modifies this`disk, this`currWriteFileSize, this`files, this`accepted, this`longest, this`lines
      ensures Valid() && accepted == old(accepted) + [Record(prefix, mark, text)]
      ensures files == Extended(old(files), Record(prefix, mark, text)) && lines == old(lines) + 1
    {
      ghost var n, record := rotatingFileNum, Record(prefix, mark, text);
      RecordSize(prefix, mark, text);
      hide Slot, Complete, Contents, Extended, Tail, Joined, Buffer, Record, Longest;
      ContentsExtended(disk, fileName, n, record);
      TailExtended(files, n, record);
      JoinedExtended(files, record);
      JoinedOneMore(accepted, record);
      LongestOneMore(accepted, record);
      Associate(Joined(initial), Joined(accepted), record);
      ExtendedAt(files, record);
      if stream.Some? {
        disk := disk[stream.value := Existing(disk, stream.value) + Record(prefix, mark, text)];
      }
      currWriteFileSize := currWriteFileSize + |prefix| + 5 + |Buffer(text)| + 2;
      accepted, longest := accepted + [record], Max(longest, |record|);
      files, lines := Extended(files, record), lines + 1;
    }

    /** One record: it goes to the end of the last file, or is the first of a new one if the last was full, which it
        is when its size and the number of its records reach the limit. A file that goes goes whole. */
    method Write(prefix: string, mark: char, text: string) returns (o: Outcome)
      requires Valid() && initialized
      modifies this`disk, this`stream, this`currWriteFileSize, this`files, this`accepted, this`longest, this`lines
      ensures Valid() && o == Fine && accepted == old(accepted) + [Record(prefix, mark, text)]
      ensures old(|files|) > 0
      ensures var full := old(|files[|files| - 1]| + lines >= eachFileSize);
        && files == Extended(if full then WithNew(old(files)) else old(files), Record(prefix, mark, text))
        && lines == (if full then 0 else old(lines)) + 1
    {
      hide Slot, Complete, Contents, Extended, Tail, Joined, Record, WithNew, Longest;
      o := RotateIfFull();
      Emit(prefix, mark, text);
    }

    method Trace(prefix: string, text: string) returns (o: Outcome)
      requires Valid()
      modifies this`disk, this`stream, this`currWriteFileSize, this`files, this`accepted, this`longest, this`lines
      ensures Valid() && (o == Fine <==> initialized)
      ensures accepted == if initialized && level == TRACE then old(accepted) + [Record(prefix, 'T', text)]
                          else old(accepted)
      ensures !(initialized && level == TRACE) ==> disk == old(disk) && files == old(files)
    {
      if !initialized {
        return Thrown("please call init function globalRotatingLoggerInit() first");
      }
      o := Fine;
      if 0 == Rank(level) {
        o := Write(prefix, 'T', text);
      }
    }

    method Debug(prefix: string, text: string) returns (o: Outcome)
      requires Valid()
      modifies this`disk, this`stream, this`currWriteFileSize, this`files, this`accepted, this`longest, this`lines
      ensures Valid() && (o == Fine <==> initialized)
      ensures accepted == if initialized && level != INFO then old(accepted) + [Record(prefix, 'D', text)]
                          else old(accepted)
      ensures !(initialized && level != INFO) ==> disk == old(disk) && files == old(files)
    {
      if !initialized {
        return Thrown("please call init function globalRotatingLoggerInit() first");
      }
      o := Fine;
      if Rank(level) <= 1 {
        o := Write(prefix, 'D', text);
      }
    }

    method Info(prefix: string, text: string) returns (o: Outcome)
      requires Valid()
      modifies this`disk, this`stream, this`currWriteFileSize, this`files, this`accepted, this`longest, this`lines
      ensures Valid() && (o == Fine <==> initialized)
      ensures accepted == if initialized then old(accepted) + [Record(prefix, 'I', text)] else old(accepted)
      ensures !initialized ==> disk == old(disk) && files == old(files)
    {
      if !initialized {
        return Thrown("please call init function globalRotatingLoggerInit() first");
      }
      o := Fine;
      if Rank(level) <= 2 {
        o := Write(prefix, 'I', text);
      }
    }

    method Error(prefix: string, text: string) returns (o: Outcome)
      requires Valid()
      modifies this`disk, this`stream, this`currWriteFileSize, this`files, this`accepted, this`longest, this`lines
      ensures Valid() && (o == Fine <==> initialized)
      ensures accepted == if initialized then old(accepted) + [Record(prefix, 'E', text)] else old(accepted)
      ensures !initialized ==> disk == old(disk) && files == old(files)
    {
      if !initialized {
        return Thrown("please call init function globalRotatingLoggerInit() first");
      }
      o := Write(prefix, 'E', text);
    }

    /** What is on disk, read from the oldest file to the newest, is the end of what was there at the start followed
        by every record accepted; what is gone is whole files, the oldest. */
    lemma OnlyOldestFilesGo()
      requires Valid() && initialized
      ensures var gone := files[..|files| - rotatingFileNum];
        Complete(disk, fileName, rotatingFileNum) &&
        files == gone + Contents(disk, fileName, rotatingFileNum) &&
        Joined(gone) + Joined(Contents(disk, fileName, rotatingFileNum)) == Joined(initial) + Joined(accepted)
    {
      var gone := files[..|files| - rotatingFileNum];
      assert files == gone + Tail(files, rotatingFileNum);
      JoinedSplit(gone, Tail(files, rotatingFileNum));
    }

    /** Every file on disk that was begun since the start has at most the limit, less one, and one record. */
    lemma FilesAreBounded(k: nat)
      requires Valid() && initialized && k < rotatingFileNum && |files| - rotatingFileNum + k >= rotatingFileNum
      ensures Complete(disk, fileName, rotatingFileNum)
      ensures |Contents(disk, fileName, rotatingFileNum)[k]| <= eachFileSize - 1 + longest
    {
      assert Contents(disk, fileName, rotatingFileNum)[k] == files[|files| - rotatingFileNum + k];
    }
  }

  // ----- Names and records, written out --------------------------------------------------------

  /** Three files, the oldest first. */
  lemma FileNames(base: string)
    ensures Slot(base, 3, 0) == base + ".1.log" && Slot(base, 3, 1) == base + ".2.log"
    ensures Slot(base, 3, 2) == base + ".log"
  {
    assert Decimal(1) == "1" && Decimal(2) == "2";
    assert base + "." + "1" + ".log" == base + ".1.log" && base + "." + "2" + ".log" == base + ".2.log";
  }

  /** A record, and how much of a long text it keeps. */
  lemma RecordText(text: string)
    ensures Record("09:00:00", 'I', "ready") == "09:00:00 [I] ready\n"
    ensures Buffer(text) <= text && |Buffer(text)| == if |text| < 999 then |text| else 999
  {
  }
}
