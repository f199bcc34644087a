/** Acquisition folders (file_writer.py) and reading them back (reducer.py). A folder maps file
    names to images with their text chunks; listing it gives the names in no particular order. */
module Folders {
  import opened Codec
  import opened Decimals
  import opened Options
  import opened Seqs
  import opened Sorting

  // ----- Naming an acquisition -----

  function DigitRun(s: string): (k: nat)
    ensures k <= |s| && AllDigits(s[..k]) && (k < |s| ==> !IsDigit(s[k]))
  {
    if s == [] || !IsDigit(s[0]) then 0
    else
      var k := DigitRun(s[1..]);
      assert s[..k + 1] == [s[0]] + s[1..][..k];
      k + 1
  }

  const PREFIX := "acq"

  /** The number in a name of the form acq, digits, anything on the same line. */
  function AcqNumber(name: string): Option<nat> {
    if |name| < 3 || name[..3] != PREFIX then None
    else
      var rest := name[3..];
      var k := DigitRun(rest);
      if k == 0 || '\n' in rest[k..] then None else Some(Parse(rest[..k]))
  }

  function AcqName(n: nat, suffix: string): string {
    PREFIX + Padded(n, 5) + if suffix == [] then [] else ['_'] + suffix
  }

  lemma {:induction false} DigitRunAt(a: string, b: string)
    requires AllDigits(a) && (b == [] || !IsDigit(b[0]))
    ensures DigitRun(a + b) == |a|
  {
    if a == [] {
      assert a + b == b;
    } else {
      assert a[0] in a && (a + b)[1..] == a[1..] + b;
      DigitRunAt(a[1..], b);
    }
  }

  /** Whatever the number of digits, they are the number of the name. */
  lemma NumberOfName(digits: string, tail: string)
    requires digits != [] && AllDigits(digits) && (tail == [] || !IsDigit(tail[0]))
    ensures AcqNumber("acq" + digits + tail) == if '\n' in tail then None else Some(Parse(digits))
  {
    var name, rest := "acq" + digits + tail, digits + tail;
    assert name[..3] == PREFIX && name[3..] == rest;
    DigitRunAt(digits, tail);
    assert rest[..|digits|] == digits && rest[|digits|..] == tail;
  }

  /** The number of a new name reads back, unless the suffix breaks the line. */
  lemma NumberReadsBack(n: nat, suffix: string)
    ensures AcqNumber(AcqName(n, suffix)) == if '\n' in suffix then None else Some(n)
  {
    var tail := if suffix == [] then [] else ['_'] + suffix;
    NumberOfName(Padded(n, 5), tail);
    assert '\n' in tail <==> '\n' in suffix;
    ParsePadded(n, 5);
  }

  /** `h` is the highest number among the names, zero when there is none. */
  ghost predicate IsHighest(names: set<string>, h: nat) {
    && (forall c :: c in names && AcqNumber(c).Some? ==> AcqNumber(c).value <= h)
    && (h == 0 || exists c :: c in names && AcqNumber(c) == Some(h))
  }

  lemma HighestUnique(names: set<string>, h: nat, k: nat)
    requires IsHighest(names, h) && IsHighest(names, k)
    ensures h == k
  {
  }

  /** The next name is new and its number exceeds every existing one. */
  lemma NextIsNew(names: set<string>, h: nat, suffix: string)
    requires IsHighest(names, h) && '\n' !in suffix
    ensures AcqName(h + 1, suffix) !in names
    ensures AcqNumber(AcqName(h + 1, suffix)) == Some(h + 1)
    ensures forall c :: c in names && AcqNumber(c).Some? ==> AcqNumber(c).value < h + 1
  {
    NumberReadsBack(h + 1, suffix);
  }

  /** The name `_next_acq_dir` chooses among these names. */
  ghost predicate IsNextName(names: set<string>, suffix: string, name: string) {
    exists h: nat :: IsHighest(names, h) && name == AcqName(h + 1, suffix)
  }

  lemma NextNameIsNew(names: set<string>, suffix: string, name: string)
    requires IsNextName(names, suffix, name) && '\n' !in suffix
    ensures name !in names
  {
    var h: nat :| IsHighest(names, h) && name == AcqName(h + 1, suffix);
    NextIsNew(names, h, suffix);
  }

  /** There is one such name, whatever the order in which the folders are listed. */
  lemma NextNameUnique(names: set<string>, suffix: string, name: string, h: nat)
    requires IsHighest(names, h)
    ensures IsNextName(names, suffix, name) <==> name == AcqName(h + 1, suffix)
  {
    forall k: nat | IsHighest(names, k)
      ensures k == h
    {
      HighestUnique(names, h, k);
    }
  }

  /** Exactly the suffixes without a line break are safe: with one, the folder of the first
      acquisition does not count and the next acquisition is written into it. */
  lemma NewExactly(suffix: string)
    ensures (forall names, h: nat :: IsHighest(names, h) ==> AcqName(h + 1, suffix) !in names) <==> '\n' !in suffix
  {
    if '\n' in suffix {
      NumberReadsBack(1, suffix);
      var names := {AcqName(1, suffix)};
      assert IsHighest(names, 0) && AcqName(0 + 1, suffix) in names;
    } else {
      forall names, h: nat | IsHighest(names, h)
        ensures AcqName(h + 1, suffix) !in names
      {
        NextIsNew(names, h, suffix);
      }
    }
  }

  predicate IsSafe(c: char) {
    'A' <= c <= 'Z' || 'a' <= c <= 'z' || '0' <= c <= '9' || c == '.' || c == '_' || c == '-'
  }

  /** Every run of other characters becomes one dash. */
  function Safe(p: string, inRun: bool): (s: string)
    ensures forall c :: c in s ==> IsSafe(c)
  {
    if p == [] then []
    else if IsSafe(p[0]) then [p[0]] + Safe(p[1..], false)
    else if inRun then Safe(p[1..], true)
    else ['-'] + Safe(p[1..], true)
  }

  /** The suffix the runner passes; it never breaks the line. */
  function NameSuffix(sample: string, experiment: string): (s: string)
    ensures '\n' !in s
  {
    var a, b := Safe(sample, false), Safe(experiment, false);
    if sample == [] then b else if experiment == [] then a else a + ['_'] + b
  }

  lemma {:induction false} SafeUnchanged(p: string, rest: string, inRun: bool)
    requires p != [] && forall c :: c in p ==> IsSafe(c)
    ensures Safe(p + rest, inRun) == p + Safe(rest, false)
  {
    assert (p + rest)[1..] == p[1..] + rest && p[0] in p;
    if |p| > 1 {
      SafeUnchanged(p[1..], rest, false);
    } else {
      assert p[1..] + rest == rest;
    }
  }

  lemma {:induction false} RunSkipped(u: string, rest: string)
    requires forall c :: c in u ==> !IsSafe(c)
    ensures Safe(u + rest, true) == Safe(rest, true)
  {
    if u == [] {
      assert u + rest == rest;
    } else {
      assert (u + rest)[1..] == u[1..] + rest && u[0] in u;
      RunSkipped(u[1..], rest);
    }
  }

  /** The sample's name comes first, then the experiment's; safe names are kept. */
  lemma NameSuffixKept(sample: string, experiment: string)
    requires sample != [] && experiment != []
    requires (forall c :: c in sample ==> IsSafe(c)) && forall c :: c in experiment ==> IsSafe(c)
    ensures NameSuffix(sample, experiment) == sample + "_" + experiment
    ensures NameSuffix(sample, []) == sample && NameSuffix([], experiment) == experiment
  {
    SafeUnchanged(sample, [], false);
    SafeUnchanged(experiment, [], false);
    assert sample + [] == sample && experiment + [] == experiment;
  }

  /** Safe text is kept, and any run of other characters between two safe ones is a single dash. */
  lemma RunBecomesDash(p: string, u: string, q: string, rest: string)
    requires p != [] && (forall c :: c in p ==> IsSafe(c)) && q != [] && forall c :: c in q ==> IsSafe(c)
    requires u != [] && forall c :: c in u ==> !IsSafe(c)
    ensures Safe(p + (u + (q + rest)), false) == p + (['-'] + (q + Safe(rest, false)))
  {
    SafeUnchanged(p, u + (q + rest), false);
    assert u[0] in u && (u + (q + rest))[1..] == u[1..] + (q + rest);
    RunSkipped(u[1..], q + rest);
    SafeUnchanged(q, rest, true);
  }

  // ----- Sorted names -----

  ghost predicate Ascending(s: seq<string>) {
    forall i, j :: 0 <= i < j < |s| ==> Less(s[i], s[j])
  }

  lemma {:induction false} LessTotal(a: string, b: string)
    requires a != b && !Less(a, b)
    ensures Less(b, a)
  {
    if a != [] && b != [] && a[0] == b[0] {
      assert a == [a[0]] + a[1..] && b == [b[0]] + b[1..];
      LessTotal(a[1..], b[1..]);
    }
  }

  lemma LessTransitive(a: string, b: string, c: string)
    requires Less(a, b) && Less(b, c)
    ensures Less(a, c)
  {
    LessAsymmetric(a, b);
    if !Less(a, c) {
      LessAsymmetric(b, c);
      if a == c {
        LessAsymmetric(a, b);
      } else {
        NotLessTransitive(a, c, b);
      }
    }
  }

  lemma FirstMember(s: seq<string>)
    requires s != []
    ensures s[0] in s
  {
  }

  /** Two ascending lists of the same names are equal. */
  lemma {:induction false} AscendingUnique(a: seq<string>, b: seq<string>)
    requires Ascending(a) && Ascending(b) && forall x :: x in a <==> x in b
    ensures a == b
  {
    if a == [] {
      if b != [] {
        FirstMember(b);
      }
    } else {
      assert a[0] in b && b[0] in a;
      var i :| 0 <= i < |a| && a[i] == b[0];
      var j :| 0 <= j < |b| && b[j] == a[0];
      if i > 0 && j > 0 {
        LessAsymmetric(a[0], a[i]);
      }
      assert a[0] == b[0];
      forall x
        ensures x in a[1..] <==> x in b[1..]
      {
        TailMembers(a, x);
        TailMembers(b, x);
      }
      AscendingUnique(a[1..], b[1..]);
      assert a == [a[0]] + a[1..] && b == [b[0]] + b[1..];
    }
  }

  lemma TailMembers(s: seq<string>, x: string)
    requires Ascending(s) && s != []
    ensures x in s[1..] <==> x in s && x != s[0]
  {
    if x in s[1..] {
      var i :| 0 <= i < |s[1..]| && s[1..][i] == x;
      assert Less(s[0], s[i + 1]);
      if x == s[0] {
        LessAsymmetric(x, x);
      }
    }
  }

  function Earlier(): (string, string) -> bool {
    (a: string, b: string) => Less(a, b)
  }

  function SortNames(s: seq<string>): seq<string> {
    Sort(Earlier(), s)
  }

  ghost predicate Distinct(s: seq<string>) {
    forall i, j :: 0 <= i < j < |s| ==> s[i] != s[j]
  }

  lemma SortAscending(s: seq<string>)
    requires Distinct(s)
    ensures Ascending(SortNames(s))
    ensures forall y :: y in SortNames(s) <==> y in s
  {
    forall a, b, c | Less(a, b) && Less(b, c)
      ensures Less(a, c)
    {
      LessTransitive(a, b, c);
    }
    forall i, j | 0 <= i < j < |s|
      ensures Less(s[i], s[j]) || Less(s[j], s[i])
    {
      if !Less(s[i], s[j]) {
        LessTotal(s[i], s[j]);
      }
    }
    SortOrdered(Earlier(), s);
  }

  // ----- Frames of an acquisition -----

  datatype Png = Png(image: Frame, text: map<string, string>)

  type Folder = map<string, Png>

  const FRAMES := "Frames"
  const GATE_STEPS := "Gate steps"
  const FRAME := "Frame"
  const GATE_STEP := "Gate step"

  /** The keys the reducer reads; `others` stands for the remaining ones. */
  function BuildPngMetadata(iterations: nat, gateSteps: Option<nat>, others: map<string, string>): map<string, string> {
    var meta := others[FRAMES := Print(iterations)];
    if gateSteps.Some? then meta[GATE_STEPS := Print(gateSteps.value)] else meta - {GATE_STEPS}
  }

  function FileName(i: nat): string {
    "IMG" + Padded(i, 5) + ".png"
  }

  /** The cast to the depth of the image. */
  function FrameImage(f: Frame, bitDepth: nat): Frame {
    Frame(f.rows, f.cols, seq(|f.px|, i requires 0 <= i < |f.px| => f.px[i] % if bitDepth <= 8 then 256 else 65536))
  }

  /** The text of frame `i`; of gated data, `steps` frames per iteration were kept. */
  function FrameText(i: nat, metadata: map<string, string>, steps: Option<nat>): map<string, string>
    requires steps.Some? ==> steps.value > 0
  {
    if steps.None? then metadata[FRAME := Print(i)]
    else metadata[FRAME := Print(i / steps.value)][GATE_STEP := Print(i % steps.value)]
  }

  function FilePng(f: Frame, i: nat, bitDepth: nat, metadata: map<string, string>, steps: Option<nat>): Png
    requires steps.Some? ==> steps.value > 0
  {
    Png(FrameImage(f, bitDepth), FrameText(i, metadata, steps))
  }

  /** The folder after the first `n` frames are written. */
  function Written(folder: Folder, stack: seq<Frame>, n: nat, bitDepth: nat, metadata: map<string, string>,
          steps: Option<nat>): Folder
    requires n <= |stack| && (n > 0 && steps.Some? ==> steps.value > 0)
  {
    if n == 0 then folder
    else
      var png := FilePng(stack[n - 1], n - 1, bitDepth, metadata, steps);
      Written(folder, stack, n - 1, bitDepth, metadata, steps)[FileName(n - 1) := png]
  }

  function Existing(folders: map<string, Folder>, name: string): Folder {
    if name in folders then folders[name] else map[]
  }

  /** The folders of one mode. */
  class ModeRoot {
    var folders: map<string, Folder>

    constructor ()
      ensures folders == map[]
    {
      folders := map[];
    }

    /** Reuses a folder that exists already; see `NewExactly` for when that happens. */
    method NextAcqDir(suffix: string) returns (name: string)
      modifies this
      ensures IsNextName(old(folders).Keys, suffix, name)
      ensures folders == if name in old(folders) then old(folders) else old(folders)[name := map[]]
    {
      var highest: nat := 0;
      var rest := folders.Keys;
      while rest != {}
        invariant rest <= folders.Keys && folders == old(folders)
        invariant IsHighest(folders.Keys - rest, highest)
        decreases rest
      {
        var child :| child in rest;
        var before := highest;
        var number := AcqNumber(child);
        if number.Some? {
          highest := if number.value > highest then number.value else highest;
        }
        HighestGrows(folders.Keys - rest, before, child);
        rest := rest - {child};
        assert folders.Keys - rest == (folders.Keys - (rest + {child})) + {child};
      }
      assert folders.Keys - rest == folders.Keys;
      name := AcqName(highest + 1, suffix);
      if name !in folders {
        folders := folders[name := map[]];
      }
    }

    method WriteFrames(name: string, stack: seq<Frame>, bitDepth: nat, metadata: map<string, string>,
            steps: Option<nat>)
      requires name in folders && (stack != [] && steps.Some? ==> steps.value > 0)
      modifies this
      ensures folders == old(folders)[name := Written(old(folders)[name], stack, |stack|, bitDepth, metadata, steps)]
    {
      ghost var was := folders;
      for index := 0 to |stack|
        invariant name in folders && folders[name] == Written(was[name], stack, index, bitDepth, metadata, steps)
        invariant folders - {name} == was - {name}
      {
        var png := FilePng(stack[index], index, bitDepth, metadata, steps);
        folders := folders[name := folders[name][FileName(index) := png]];
      }
      OnlyOneDiffers(was, folders, name);
    }

    /** The stack goes into the next folder; a suffix without a line break makes that a new one. */
    method SaveAcquisition(stack: seq<Frame>, bitDepth: nat, metadata: map<string, string>, steps: Option<nat>,
            suffix: string)
      returns (name: string)
      requires stack != [] && steps.Some? ==> steps.value > 0
      modifies this
      ensures IsNextName(old(folders).Keys, suffix, name)
      ensures folders
        == old(folders)[name := Written(Existing(old(folders), name), stack, |stack|, bitDepth, metadata, steps)]
      ensures '\n' !in suffix ==> name !in old(folders)
    {
      name := NextAcqDir(suffix);
      if '\n' !in suffix {
        NextNameIsNew(old(folders).Keys, suffix, name);
      }
      ghost var was, mid := old(folders), folders;
      WriteFrames(name, stack, bitDepth, metadata, steps);
      PutOver(was, mid, name, folders[name]);
    }
  }

  lemma PutOver(was: map<string, Folder>, mid: map<string, Folder>, name: string, folder: Folder)
    requires mid == if name in was then was else was[name := map[]]
    ensures mid[name := folder] == was[name := folder]
  {
  }

  lemma OnlyOneDiffers(was: map<string, Folder>, now: map<string, Folder>, name: string)
    requires name in now && now - {name} == was - {name}
    ensures now == was[name := now[name]]
  {
    forall k | k != name
      ensures k in now <==> k in was
      ensures k in now ==> now[k] == was[k]
    {
      assert k in now <==> k in now - {name};
      assert k in was <==> k in was - {name};
    }
  }

  lemma HighestGrows(names: set<string>, h: nat, child: string)
    requires IsHighest(names, h)
    ensures IsHighest(names + {child}, match AcqNumber(child) case None => h case Some(n) => if n > h then n else h)
  {
    assert child in names + {child};
    if h > 0 {
      var c :| c in names && AcqNumber(c) == Some(h);
      assert c in names + {child};
    }
  }

  lemma FileNameInjective(i: nat, j: nat)
    requires FileName(i) == FileName(j)
    ensures i == j
  {
    var n := |FileName(i)|;
    assert FileName(i)[3..n - 4] == Padded(i, 5) && FileName(j)[3..n - 4] == Padded(j, 5);
    ParsePadded(i, 5);
    ParsePadded(j, 5);
  }

  function Names(n: nat): (s: seq<string>)
    ensures |s| == n && forall i :: 0 <= i < n ==> s[i] == FileName(i)
  {
    seq(n, i requires 0 <= i => FileName(i))
  }

  const NAMED_IN_ORDER: nat := 100000

  /** File names sort in frame order exactly up to one hundred thousand frames. */
  lemma NamesAscendExactly(n: nat)
    ensures Ascending(Names(n)) <==> n <= NAMED_IN_ORDER
  {
    assert Pow10(5) == NAMED_IN_ORDER by {
      assert Pow10(4) == 10000;
    }
    if n <= NAMED_IN_ORDER {
      forall i, j | 0 <= i < j < n
        ensures Less(FileName(i), FileName(j))
      {
        PaddedOrder(i, j, 5, ".png", ".png");
        LessAfter("IMG", Padded(i, 5) + ".png", Padded(j, 5) + ".png");
        assert FileName(i) == "IMG" + (Padded(i, 5) + ".png");
        assert FileName(j) == "IMG" + (Padded(j, 5) + ".png");
      }
    } else {
      FirstMisplaced();
      LessAsymmetric(FileName(100000), FileName(10001));
      assert Names(n)[10001] == FileName(10001) && Names(n)[100000] == FileName(100000);
    }
  }

  lemma PrintNext(n: nat, d: nat)
    requires n > 0 && d < 10
    ensures Print(10 * n + d) == Print(n) + [Digit(d)]
  {
  }

  lemma PrintedWide()
    ensures Padded(100000, 5) == "100000" && Padded(10001, 5) == "10001"
  {
    PrintNext(1, 0);
    PrintNext(10, 0);
    PrintNext(100, 0);
    PrintNext(1000, 0);
    PrintNext(1000, 1);
    PrintNext(10000, 0);
  }

  lemma FirstMisplaced()
    ensures Less(FileName(100000), FileName(10001))
  {
    PrintedWide();
    var a, b := "00.png", "1.png";
    assert Less(a, b);
    LessAfter("IMG1000", a, b);
    assert FileName(100000) == "IMG1000" + a && FileName(10001) == "IMG1000" + b;
  }

  /** The first names of their kind, in full. */
  lemma NamesSpelled(suffix: string)
    requires suffix != []
    ensures AcqName(1, []) == "acq00001" && AcqName(1, suffix) == "acq00001_" + suffix
    ensures FileName(0) == "IMG00000.png"
  {
    assert Print(1) == "1" && Print(0) == "0" && Zeros(4) == "0000";
  }

  lemma FileNamesDiffer(i: nat, j: nat)
    requires i != j
    ensures FileName(i) != FileName(j)
  {
    if FileName(i) == FileName(j) {
      FileNameInjective(i, j);
    }
  }

  lemma {:induction false} WrittenNames(stack: seq<Frame>, n: nat, bitDepth: nat, metadata: map<string, string>,
          steps: Option<nat>)
    requires n <= |stack| && (n > 0 && steps.Some? ==> steps.value > 0)
    ensures forall name :: name in Written(map[], stack, n, bitDepth, metadata, steps) <==> name in Names(n)
  {
    if n > 0 {
      WrittenNames(stack, n - 1, bitDepth, metadata, steps);
      assert Names(n) == Names(n - 1) + [FileName(n - 1)];
    }
  }

  lemma {:induction false} WrittenAt(stack: seq<Frame>, n: nat, bitDepth: nat, metadata: map<string, string>,
          steps: Option<nat>, i: nat)
    requires i < n <= |stack| && (steps.Some? ==> steps.value > 0)
    ensures var folder := Written(map[], stack, n, bitDepth, metadata, steps);
      FileName(i) in folder && folder[FileName(i)] == FilePng(stack[i], i, bitDepth, metadata, steps)
  {
    if i < n - 1 {
      WrittenAt(stack, n - 1, bitDepth, metadata, steps, i);
      FileNamesDiffer(i, n - 1);
    }
  }

  // ----- Reading back -----

  predicate IsPng(name: string) {
    |name| >= 4 && name[|name| - 4..] == ".png"
  }

  /** The names of the images in order. */
  ghost predicate SortedListing(folder: Folder, names: seq<string>) {
    Ascending(names) && forall x :: x in names <==> x in folder && IsPng(x)
  }

  datatype Reduced =
    | NoImages
    | BadFrameCount
    | NoFrames
    | ShapeMismatch
    | Movie(meta: map<string, string>, frames: seq<Frame>)

  function ReadCount(meta: map<string, string>, key: string): Option<nat> {
    if key in meta && meta[key] != [] && AllDigits(meta[key]) then Some(Parse(meta[key])) else None
  }

  /** None where the source raises. */
  function ExpectedFrames(meta: map<string, string>): Option<nat> {
    var frames := ReadCount(meta, FRAMES);
    if GATE_STEPS !in meta then frames
    else
      var steps := ReadCount(meta, GATE_STEPS);
      if frames.None? || steps.None? then None else Some(steps.value * frames.value)
  }

  predicate SameShapeAs(f: Frame, g: Frame) {
    f.rows == g.rows && f.cols == g.cols
  }

  predicate OneShape(images: seq<Frame>) {
    forall i :: 0 <= i < |images| ==> SameShapeAs(images[i], images[0])
  }

  function Images(folder: Folder, names: seq<string>): (s: seq<Frame>)
    requires forall x :: x in names ==> x in folder
    ensures |s| == |names| && forall i :: 0 <= i < |names| ==> s[i] == folder[names[i]].image
  {
    seq(|names|, i requires 0 <= i < |names| => folder[names[i]].image)
  }

  /** Both ends of a Python slice; a missing one is the whole range. */
  type Slice = Option<(int, int)>

  /** A slice bound counts from the end when negative and never leaves the range. */
  function Bound(i: int, n: nat): (b: nat)
    ensures b <= n
  {
    if n + i < 0 then 0 else if i < 0 then n + i else if i < n then i else n
  }

  function From(crop: Slice, n: nat): (b: nat)
    ensures b <= n
  {
    if crop.None? then 0 else Bound(crop.value.0, n)
  }

  function Size(crop: Slice, n: nat): (k: nat)
    ensures From(crop, n) + k <= n
  {
    if crop.None? then n
    else if Bound(crop.value.1, n) < From(crop, n) then 0 else Bound(crop.value.1, n) - From(crop, n)
  }

  /** `x` cuts rows and `y` cuts columns. */
  function Cropped(f: Frame, x: Slice, y: Slice): Frame {
    if x.None? && y.None? then f
    else
      var (rows, cols) := (Size(x, f.rows), Size(y, f.cols));
      Frame(rows, cols, seq(rows * cols, k requires 0 <= k < rows * cols =>
        CroppedPixel(f, x, y, k)))
  }

  /** The pixel at position `k` of the cut-out. */
  function CroppedPixel(f: Frame, x: Slice, y: Slice, k: nat): nat {
    var cols := Size(y, f.cols);
    if cols == 0 then 0 else At(f, From(x, f.rows) + k / cols, From(y, f.cols) + k % cols)
  }

  /** The cut-out shows the frame shifted to the corner of the cut. */
  lemma CroppedAt(f: Frame, x: Slice, y: Slice, r: nat, c: nat)
    requires f.Valid() && r < Size(x, f.rows) && c < Size(y, f.cols)
    ensures var g := Cropped(f, x, y);
      g.Valid() && g.rows == Size(x, f.rows) && g.cols == Size(y, f.cols)
      && At(g, r, c) == At(f, From(x, f.rows) + r, From(y, f.cols) + c)
  {
    IndexInside(r, c, Size(x, f.rows), Size(y, f.cols));
  }

  /** Both bounds count from the end when negative: the cut holds exactly the indices between them. */
  lemma SliceExactly(a: int, b: int, n: nat, r: int)
    ensures From(Some((a, b)), n) <= r < From(Some((a, b)), n) + Size(Some((a, b)), n) <==>
      0 <= r < n && (if a < 0 then n + a else a) <= r < (if b < 0 then n + b else b)
  {
  }

  function CroppedAll(movie: seq<Frame>, x: Slice, y: Slice): (s: seq<Frame>)
    ensures |s| == |movie| && forall i :: 0 <= i < |movie| ==> s[i] == Cropped(movie[i], x, y)
    ensures x.None? && y.None? ==> s == movie
  {
    seq(|movie|, i requires 0 <= i < |movie| => Cropped(movie[i], x, y))
  }

  function ReduceOf(folder: Folder, names: seq<string>, x: Slice, y: Slice): Reduced
    requires forall x :: x in names ==> x in folder
  {
    if names == [] then NoImages
    else
      var meta := folder[names[0]].text;
      var expected := ExpectedFrames(meta);
      if expected.None? then BadFrameCount
      else
        var count := Min(expected.value, |names|);
        var images := Images(folder, names[..count]);
        if count == 0 then NoFrames
        else if OneShape(images) then Movie(meta, CroppedAll(images, x, y))
        else ShapeMismatch
  }

  /** A movie has as many frames as the metadata counts, at most one per image, each the cut of its image. */
  lemma MovieExactly(folder: Folder, names: seq<string>, x: Slice, y: Slice)
    requires forall name :: name in names ==> name in folder
    requires ReduceOf(folder, names, x, y).Movie?
    ensures var r, expected := ReduceOf(folder, names, x, y), ExpectedFrames(folder[names[0]].text);
      && expected.Some? && 0 < |r.frames| == Min(expected.value, |names|)
      && forall i :: 0 <= i < |r.frames| ==> r.frames[i] == Cropped(folder[names[i]].image, x, y)
  {
  }

  /** The names of the images, in the order the file system gives them. */
  method GlobPng(folder: Folder) returns (names: seq<string>)
    ensures Distinct(names) && forall x :: x in names <==> x in folder && IsPng(x)
  {
    names := [];
    var rest := folder.Keys;
    while rest != {}
      invariant rest <= folder.Keys && Distinct(names)
      invariant forall x :: x in names <==> x in folder && x !in rest && IsPng(x)
      decreases |rest|
    {
      var name :| name in rest;
      if IsPng(name) {
        names := names + [name];
      }
      rest := rest - {name};
    }
  }

  /** What the reducer makes of the folder, in whatever order it is listed. */
  ghost predicate IsReduction(folder: Folder, x: Slice, y: Slice, r: Reduced) {
    forall names {:trigger SortedListing(folder, names)} :: SortedListing(folder, names) ==>
      r == ReduceOf(folder, names, x, y)
  }

  /** The reading loop, over the names in order. */
  method ReduceSorted(folder: Folder, files: seq<string>, x: Slice, y: Slice) returns (r: Reduced)
    requires forall name :: name in files ==> name in folder
    ensures r == ReduceOf(folder, files, x, y)
  {
    if files == [] {
      return NoImages;
    }
    assert files[0] in files;
    var meta := folder[files[0]].text;
    var expected := ExpectedFrames(meta);
    if expected.None? {
      return BadFrameCount;
    }
    var count := Min(expected.value, |files|);
    if count == 0 {
      return NoFrames;
    }
    ghost var images := Images(folder, files[..count]);
    var movie := [folder[files[0]].image];
    for index := 1 to count
      invariant movie == images[..index]
      invariant forall i :: 0 <= i < index ==> SameShapeAs(images[i], images[0])
    {
      assert files[index] in files;
      var image := folder[files[index]].image;
      if !SameShapeAs(image, movie[0]) {
        assert !SameShapeAs(images[index], images[0]);
        return ShapeMismatch;
      }
      movie := movie + [image];
    }
    return Movie(meta, CroppedAll(movie, x, y));
  }

  method ReduceFolder(folder: Folder, x: Slice, y: Slice) returns (r: Reduced)
    ensures IsReduction(folder, x, y, r)
  {
    var listing := GlobPng(folder);
    var files := SortNames(listing);
    SortAscending(listing);
    assert SortedListing(folder, files);
    r := ReduceSorted(folder, files, x, y);
    forall names | SortedListing(folder, names)
      ensures names == files
    {
      AscendingUnique(names, files);
    }
  }

  function FrameImages(stack: seq<Frame>, bitDepth: nat): (s: seq<Frame>)
    ensures |s| == |stack| && forall i :: 0 <= i < |stack| ==> s[i] == FrameImage(stack[i], bitDepth)
  {
    seq(|stack|, i requires 0 <= i < |stack| => FrameImage(stack[i], bitDepth))
  }

  /** The frames a run hands over: as many as counted in intensity mode; in gated mode the
      completed steps of every iteration, at most as many as were asked for. */
  predicate CountFits(n: nat, iterations: nat, asked: Option<nat>, kept: Option<nat>) {
    match asked
    case None => kept.None? && n == iterations
    case Some(s) => kept.Some? && 0 < kept.value <= s && n == iterations * kept.value
  }

  lemma KeysDiffer()
    ensures FRAME != FRAMES && GATE_STEP != FRAMES && GATE_STEP != GATE_STEPS && FRAME != GATE_STEPS
      && GATE_STEPS != FRAMES
    ensures FRAME != GATE_STEP
  {
    assert |FRAME| == 5 && |FRAMES| == 6 && |GATE_STEP| == 9 && |GATE_STEPS| == 10;
  }

  lemma CountsReadBack(iterations: nat, asked: Option<nat>, kept: Option<nat>, others: map<string, string>, i: nat)
    requires kept.Some? ==> kept.value > 0
    ensures var text := FrameText(i, BuildPngMetadata(iterations, asked, others), kept);
      ExpectedFrames(text) == if asked.None? then Some(iterations) else Some(asked.value * iterations)
  {
    KeysDiffer();
    ParsePrint(iterations);
    if asked.Some? {
      ParsePrint(asked.value);
    }
  }

  lemma CountNeverCuts(n: nat, iterations: nat, asked: Option<nat>, kept: Option<nat>)
    requires CountFits(n, iterations, asked, kept)
    ensures n <= if asked.None? then iterations else asked.value * iterations
  {
    if asked.Some? {
      MulMono(kept.value, asked.value, iterations);
    }
  }

  lemma ReduceAll(folder: Folder, names: seq<string>, x: Slice, y: Slice)
    requires names != [] && forall x :: x in names ==> x in folder
    requires var expected := ExpectedFrames(folder[names[0]].text);
      expected.Some? && expected.value >= |names|
    requires forall i :: 0 <= i < |names| ==> SameShapeAs(folder[names[i]].image, folder[names[0]].image)
    ensures ReduceOf(folder, names, x, y) == Movie(folder[names[0]].text, CroppedAll(Images(folder, names), x, y))
  {
    assert names[..|names|] == names;
  }

  lemma SavedListing(stack: seq<Frame>, bitDepth: nat, meta: map<string, string>, kept: Option<nat>)
    requires |stack| <= NAMED_IN_ORDER && (kept.Some? ==> kept.value > 0)
    ensures SortedListing(Written(map[], stack, |stack|, bitDepth, meta, kept), Names(|stack|))
  {
    WrittenNames(stack, |stack|, bitDepth, meta, kept);
    NamesAscendExactly(|stack|);
    forall x | x in Names(|stack|)
      ensures IsPng(x)
    {
    }
  }

  lemma SavedImages(stack: seq<Frame>, bitDepth: nat, meta: map<string, string>, kept: Option<nat>, i: nat)
    requires i < |stack| && (kept.Some? ==> kept.value > 0)
    ensures var folder := Written(map[], stack, |stack|, bitDepth, meta, kept);
      && FileName(i) in folder
      && folder[FileName(i)] == FilePng(stack[i], i, bitDepth, meta, kept)
  {
    WrittenAt(stack, |stack|, bitDepth, meta, kept, i);
  }

  /** Saving, then reducing, gives every frame back in order, cast to the image depth and cut as asked,
      for at most one hundred thousand frames; a partial paced run included. */
  lemma SaveThenReduce(stack: seq<Frame>, bitDepth: nat, iterations: nat, asked: Option<nat>, kept: Option<nat>,
          others: map<string, string>, rows: nat, cols: nat, x: Slice, y: Slice)
    requires 0 < |stack| <= NAMED_IN_ORDER && CountFits(|stack|, iterations, asked, kept)
    requires forall f :: f in stack ==> f.rows == rows && f.cols == cols
    ensures var meta := BuildPngMetadata(iterations, asked, others);
      var folder := Written(map[], stack, |stack|, bitDepth, meta, kept);
      && SortedListing(folder, Names(|stack|))
      && ReduceOf(folder, Names(|stack|), x, y)
        == Movie(FrameText(0, meta, kept), CroppedAll(FrameImages(stack, bitDepth), x, y))
  {
    var n, meta := |stack|, BuildPngMetadata(iterations, asked, others);
    var folder, names := Written(map[], stack, n, bitDepth, meta, kept), Names(n);
    SavedListing(stack, bitDepth, meta, kept);
    CountsReadBack(iterations, asked, kept, others, 0);
    CountNeverCuts(n, iterations, asked, kept);
    SavedImages(stack, bitDepth, meta, kept, 0);
    forall i | 0 <= i < n
      ensures names[i] in folder && folder[names[i]].image == FrameImage(stack[i], bitDepth)
      ensures SameShapeAs(folder[names[i]].image, folder[names[0]].image)
    {
      SavedImages(stack, bitDepth, meta, kept, i);
    }
    ReduceAll(folder, names, x, y);
    assert Images(folder, names) == FrameImages(stack, bitDepth);
  }

  lemma SavedReduction(stack: seq<Frame>, bitDepth: nat, iterations: nat, asked: Option<nat>, kept: Option<nat>,
          others: map<string, string>, r: Reduced)
    requires 0 < |stack| <= NAMED_IN_ORDER && CountFits(|stack|, iterations, asked, kept)
    requires forall f :: f in stack ==> SameShapeAs(f, stack[0])
    requires IsReduction(Written(map[], stack, |stack|, bitDepth, BuildPngMetadata(iterations, asked, others), kept),
      None, None, r)
    ensures r == Movie(FrameText(0, BuildPngMetadata(iterations, asked, others), kept), FrameImages(stack, bitDepth))
  {
    SaveThenReduce(stack, bitDepth, iterations, asked, kept, others, stack[0].rows, stack[0].cols, None, None);
  }

  /** Saving with the reducer switched on: the folder is new, the others stay as they were, and
      the movie is the saved stack. */
  method Persist(root: ModeRoot, stack: seq<Frame>, bitDepth: nat, iterations: nat, asked: Option<nat>,
          kept: Option<nat>, others: map<string, string>, sample: string, experiment: string)
    returns (name: string, reduced: Reduced)
    requires stack != [] && CountFits(|stack|, iterations, asked, kept)
    requires forall f :: f in stack ==> SameShapeAs(f, stack[0])
    modifies root
    ensures IsNextName(old(root.folders).Keys, NameSuffix(sample, experiment), name) && name !in old(root.folders)
    ensures name in root.folders && root.folders == old(root.folders)[name := root.folders[name]]
    ensures |stack| <= NAMED_IN_ORDER ==>
      reduced == Movie(FrameText(0, BuildPngMetadata(iterations, asked, others), kept), FrameImages(stack, bitDepth))
  {
    var meta := BuildPngMetadata(iterations, asked, others);
    name := root.SaveAcquisition(stack, bitDepth, meta, kept, NameSuffix(sample, experiment));
    var folder := root.folders[name];
    reduced := ReduceFolder(folder, None, None);
    if |stack| <= NAMED_IN_ORDER {
      SavedReduction(stack, bitDepth, iterations, asked, kept, others, reduced);
    }
  }

  predicate FitsDepth(f: Frame, bitDepth: nat) {
    forall k :: 0 <= k < |f.px| ==> f.px[k] < if bitDepth <= 8 then 256 else 65536
  }

  /** The cast keeps the low bits. */
  lemma CastKeepsLowBits(f: Frame, bitDepth: nat, k: nat)
    requires k < |f.px|
    ensures var g, range := FrameImage(f, bitDepth), if bitDepth <= 8 then 256 else 65536;
      && g.rows == f.rows && g.cols == f.cols && |g.px| == |f.px|
      && g.px[k] < range && exists wraps: nat :: f.px[k] == wraps * range + g.px[k]
  {
    var range := if bitDepth <= 8 then 256 else 65536;
    assert f.px[k] == f.px[k] / range * range + f.px[k] % range;
  }

  lemma FrameUnchanged(f: Frame, bitDepth: nat)
    ensures FrameImage(f, bitDepth) == f <==> FitsDepth(f, bitDepth)
  {
    var g := FrameImage(f, bitDepth);
    if FitsDepth(f, bitDepth) {
      assert g.px == f.px;
    } else {
      var k :| 0 <= k < |f.px| && !(f.px[k] < if bitDepth <= 8 then 256 else 65536);
      assert g.px[k] != f.px[k];
    }
  }

  /** The stack itself comes back exactly when its values fit the image depth. */
  lemma UnchangedExactly(stack: seq<Frame>, bitDepth: nat)
    ensures FrameImages(stack, bitDepth) == stack <==> forall f :: f in stack ==> FitsDepth(f, bitDepth)
  {
    var cast := FrameImages(stack, bitDepth);
    forall i | 0 <= i < |stack|
      ensures cast[i] == stack[i] <==> FitsDepth(stack[i], bitDepth)
    {
      FrameUnchanged(stack[i], bitDepth);
    }
    if forall f :: f in stack ==> FitsDepth(f, bitDepth) {
      assert cast == stack;
    }
  }

  /** In a gated folder file `i * kept + s` is labelled with iteration `i` and step `s`. */
  lemma GatedLabels(f: Frame, i: nat, s: nat, kept: nat, bitDepth: nat, metadata: map<string, string>)
    requires s < kept
    ensures var text := FilePng(f, i * kept + s, bitDepth, metadata, Some(kept)).text;
      ReadCount(text, FRAME) == Some(i) && ReadCount(text, GATE_STEP) == Some(s)
  {
    KeysDiffer();
    DivModUnique(i * kept + s, kept, i, s);
    ParsePrint(i);
    ParsePrint(s);
  }
}
