/** Texts as lines, each with its line end, and back. */
module TextLines {

  function Terminated(lines: seq<string>): string {
    if lines == [] then "" else lines[0] + "\n" + Terminated(lines[1..])
  }

  /** Where the first line ends, or the length of a text that has none. */
  function LineEnd(text: string): (k: nat)
    ensures k <= |text| && (forall i :: 0 <= i < k ==> text[i] != '\n') && (k < |text| ==> text[k] == '\n')
  {
    if text == [] || text[0] == '\n' then 0
    else
      var k := 1 + LineEnd(text[1..]);
      assert forall i :: 1 <= i < k ==> text[i] == text[1..][i - 1];
      k
  }

  /** The lines of a text: what stands in front of each line end. */
  function SplitLines(text: string): seq<string>
    decreases |text|
  {
    var k := LineEnd(text);
    if k == |text| then [] else [text[..k]] + SplitLines(text[k + 1..])
  }

  ghost predicate OneLine(s: string) {
    forall i :: 0 <= i < |s| ==> s[i] != '\n'
  }

  lemma SplitsOne(x: string, rest: string)
    requires OneLine(x)
    ensures SplitLines(x + "\n" + rest) == [x] + SplitLines(rest)
  {
    var text := x + "\n" + rest;
    assert text[|x|] == '\n' && forall i :: 0 <= i < |x| ==> text[i] == x[i];
    assert LineEnd(text) == |x|;
    assert text[..|x|] == x && text[|x| + 1..] == rest;
  }

  /** Splitting the text at its line ends gives back the lines, in order. */
  lemma {:induction false} SplitsBack(lines: seq<string>)
    requires forall i :: 0 <= i < |lines| ==> OneLine(lines[i])
    ensures SplitLines(Terminated(lines)) == lines
    decreases |lines|
  {
    if lines != [] {
      var x, rest := lines[0], Terminated(lines[1..]);
      assert OneLine(x);
      SplitsOne(x, rest);
      SplitsBack(lines[1..]);
    }
  }

  lemma {:induction false} TerminatedSnoc(lines: seq<string>, t: string)
    ensures Terminated(lines + [t]) == Terminated(lines) + t + "\n"
    decreases |lines|
  {
    if lines == [] {
      assert [] + [t] == [t] && [t][1..] == [];
    } else {
      var x, less := lines[0] + "\n", lines[1..];
      assert (lines + [t])[1..] == less + [t];
      TerminatedSnoc(less, t);
      assert x + (Terminated(less) + t + "\n") == (x + Terminated(less)) + t + "\n";
    }
  }
}
