/** The vendor command strings (commands.py) and how a reader takes them apart again. */
module Commands {
  import opened Decimals

  // ----- Fields between commas -----

  predicate Plain(s: string) {
    ',' !in s
  }

  function Join(fields: seq<string>): string {
    if fields == [] then [] else if |fields| == 1 then fields[0] else fields[0] + "," + Join(fields[1..])
  }

  /** Where the first comma is; the length when there is none. */
  function Comma(s: string): (k: nat)
    ensures k <= |s| && Plain(s[..k]) && (k < |s| ==> s[k] == ',')
  {
    if s == [] || s[0] == ',' then 0
    else
      var k := Comma(s[1..]);
      assert s[..k + 1] == [s[0]] + s[1..][..k];
      k + 1
  }

  /** Python's `split(",")`: never empty. */
  function Split(s: string): (fields: seq<string>)
    ensures fields != []
    decreases |s|
  {
    var k := Comma(s);
    if k == |s| then [s] else [s[..k]] + Split(s[k + 1..])
  }

  lemma {:induction false} CommaAfter(a: string, b: string)
    requires Plain(a)
    ensures Comma(a + "," + b) == |a|
    ensures Comma(a) == |a|
  {
    if a != [] {
      assert (a + "," + b)[1..] == a[1..] + "," + b && a[0] in a;
      CommaAfter(a[1..], b);
    }
  }

  /** Fields without commas come back from the joined line. */
  lemma {:induction false} SplitJoin(fields: seq<string>)
    requires fields != [] && forall f :: f in fields ==> Plain(f)
    ensures Split(Join(fields)) == fields
  {
    var a, rest := fields[0], fields[1..];
    if |fields| == 1 {
      CommaAfter(a, []);
    } else {
      CommaAfter(a, Join(rest));
      var s := a + "," + Join(rest);
      assert s[..|a|] == a && s[|a| + 1..] == Join(rest);
      SplitJoin(rest);
      assert fields == [a] + rest;
    }
  }

  /** The head of a line and its arguments: no arguments when nothing follows the first comma. */
  function HeadAndArgs(s: string): (string, seq<string>) {
    var k := Comma(s);
    var rest := if k < |s| then s[k + 1..] else [];
    (s[..k], if rest == [] then [] else Split(rest))
  }

  lemma HeadAndArgsOfJoin(fields: seq<string>)
    requires |fields| >= 2 && (forall f :: f in fields ==> Plain(f)) && fields[1] != []
    ensures HeadAndArgs(Join(fields)) == (fields[0], fields[1..])
  {
    var a, rest := fields[0], fields[1..];
    CommaAfter(a, Join(rest));
    var s := a + "," + Join(rest);
    assert s[..|a|] == a && s[|a| + 1..] == Join(rest);
    assert rest[0] == fields[1] && Join(rest) != [];
    SplitJoin(rest);
  }

  // ----- White space around a line -----

  predicate IsSpace(c: char) {
    c == ' ' || '\t' <= c <= '\r'
  }

  function StripLeft(s: string): string {
    if s != [] && IsSpace(s[0]) then StripLeft(s[1..]) else s
  }

  function StripRight(s: string): string {
    if s != [] && IsSpace(s[|s| - 1]) then StripRight(s[..|s| - 1]) else s
  }

  function Strip(s: string): string {
    StripRight(StripLeft(s))
  }

  lemma {:induction false} JoinEnds(fields: seq<string>)
    requires |fields| >= 1 && fields[0] != [] && fields[|fields| - 1] != []
    ensures var s, last := Join(fields), fields[|fields| - 1];
      s != [] && s[0] == fields[0][0] && s[|s| - 1] == last[|last| - 1]
  {
    if |fields| == 2 {
      assert Join(fields[1..]) == fields[1];
    } else if |fields| > 2 {
      JoinEndsLast(fields[1..]);
    }
  }

  lemma {:induction false} JoinEndsLast(fields: seq<string>)
    requires |fields| >= 1 && fields[|fields| - 1] != []
    ensures var s, last := Join(fields), fields[|fields| - 1];
      s != [] && s[|s| - 1] == last[|last| - 1]
  {
    if |fields| > 1 {
      JoinEndsLast(fields[1..]);
    }
  }

  // ----- Printers -----

  function PrintInt(z: int): string {
    if z < 0 then "-" + Print(-z) else Print(z)
  }

  function Flag(b: bool): string {
    if b then "1" else "0"
  }

  function PileupFields(enabled: bool): seq<string> {
    ["PU", Flag(enabled)]
  }

  function Pileup(enabled: bool): string {
    Join(PileupFields(enabled))
  }

  /** `time` is the integration time as printed. */
  function IntensityFields(bitDepth: nat, time: string, iterations: nat, overlap: bool, width: nat): seq<string> {
    ["I", Print(bitDepth), time, Print(iterations), "0", Flag(overlap), "0", "1", Print(width)]
  }

  function Intensity(bitDepth: nat, time: string, iterations: nat, overlap: bool, width: nat): string {
    Join(IntensityFields(bitDepth, time, iterations, overlap, width))
  }

  /** The fields of a gated request that do not change how many bytes come back; times are as
      printed. */
  datatype Gate = Gate(time: string, stepSize: string, arbitrary: bool, width: int, offset: int,
                       reverse: bool, external: bool, overlap: bool, stream: bool)

  function GatedFields(bitDepth: nat, iterations: int, steps: int, g: Gate): seq<string> {
    ["G", Print(bitDepth), g.time, PrintInt(iterations), PrintInt(steps), g.stepSize, Flag(g.arbitrary),
      PrintInt(g.width),
     PrintInt(g.offset), Flag(g.reverse), Flag(g.external), Flag(g.overlap), Flag(g.stream)]
  }

  function Gated(bitDepth: nat, iterations: int, steps: int, g: Gate): string {
    Join(GatedFields(bitDepth, iterations, steps, g))
  }

  lemma PrintPlain(n: nat)
    ensures Plain(Print(n)) && Print(n) != []
    ensures !IsSpace(Print(n)[0]) && !IsSpace(Print(n)[|Print(n)| - 1])
  {
    var s := Print(n);
    assert IsDigit(s[0]) && IsDigit(s[|s| - 1]);
  }

  lemma PrintIntPlain(z: int)
    ensures Plain(PrintInt(z))
  {
    PrintPlain(if z < 0 then -z else z);
  }

  /** A command line of plain fields reaches the handler as it was printed. */
  lemma LineReads(fields: seq<string>)
    requires |fields| >= 2 && (forall f :: f in fields ==> Plain(f)) && fields[0] != [] && fields[1] != []
    requires var last := fields[|fields| - 1]; last != [] && !IsSpace(last[|last| - 1])
    requires !IsSpace(fields[0][0])
    ensures Strip(Join(fields)) == Join(fields) != []
    ensures HeadAndArgs(Join(fields)) == (fields[0], fields[1..])
  {
    JoinEnds(fields);
    HeadAndArgsOfJoin(fields);
  }

  lemma PileupReads(enabled: bool)
    ensures Strip(Pileup(enabled)) == Pileup(enabled) != []
    ensures HeadAndArgs(Pileup(enabled)) == ("PU", [if enabled then "1" else "0"])
  {
    LineReads(PileupFields(enabled));
  }

  lemma IntensityReads(bitDepth: nat, time: string, iterations: nat, overlap: bool, width: nat)
    requires Plain(time)
    ensures var line := Intensity(bitDepth, time, iterations, overlap, width);
      && Strip(line) == line != []
      && HeadAndArgs(line)
        == ("I", [Print(bitDepth), time, Print(iterations), "0", if overlap then "1" else "0", "0", "1", Print(width)])
  {
    PrintPlain(bitDepth);
    PrintPlain(iterations);
    PrintPlain(width);
    LineReads(IntensityFields(bitDepth, time, iterations, overlap, width));
  }

  lemma GatedLineReads(bitDepth: nat, iterations: int, steps: int, g: Gate)
    requires Plain(g.time) && Plain(g.stepSize)
    ensures var line := Gated(bitDepth, iterations, steps, g);
      && Strip(line) == line != []
      && HeadAndArgs(line) == ("G", GatedFields(bitDepth, iterations, steps, g)[1..])
  {
    PrintPlain(bitDepth);
    PrintIntPlain(iterations);
    PrintIntPlain(steps);
    PrintIntPlain(g.width);
    PrintIntPlain(g.offset);
    LineReads(GatedFields(bitDepth, iterations, steps, g));
  }

  lemma GatedFieldsAre(bitDepth: nat, iterations: int, steps: int, g: Gate)
    ensures GatedFields(bitDepth, iterations, steps, g)[1..]
      == [Print(bitDepth), g.time, PrintInt(iterations), PrintInt(steps), g.stepSize,
          if g.arbitrary then "1" else "0", PrintInt(g.width), PrintInt(g.offset),
          if g.reverse then "1" else "0", if g.external then "1" else "0",
          if g.overlap then "1" else "0", if g.stream then "1" else "0"]
  {
  }

  lemma GatedReads(bitDepth: nat, iterations: int, steps: int, g: Gate)
    requires Plain(g.time) && Plain(g.stepSize)
    ensures var line := Gated(bitDepth, iterations, steps, g);
      && Strip(line) == line != []
      && HeadAndArgs(line)
        == ("G", [Print(bitDepth), g.time, PrintInt(iterations), PrintInt(steps), g.stepSize,
                  if g.arbitrary then "1" else "0", PrintInt(g.width), PrintInt(g.offset),
                  if g.reverse then "1" else "0", if g.external then "1" else "0",
                  if g.overlap then "1" else "0", if g.stream then "1" else "0"])
  {
    GatedLineReads(bitDepth, iterations, steps, g);
    GatedFieldsAre(bitDepth, iterations, steps, g);
  }
}
