/** String helpers with the meaning Python's `str` methods give them. */
module Strings {

  /** `s.endswith(suffix)` */
  predicate EndsWith(s: string, suffix: string)
  {
    |suffix| <= |s| && s[|s| - |suffix|..] == suffix
  }

  /** `sep.join(parts)` */
  function Join(parts: seq<string>, sep: string): string
  {
    if |parts| == 0 then ""
    else if |parts| == 1 then parts[0]
    else parts[0] + sep + Join(parts[1..], sep)
  }

  /** Index of the first newline in `s`, or `|s|` when there is none. */
  function FirstNewline(s: string): (i: nat)
    ensures i <= |s|
    ensures i < |s| ==> s[i] == '\n'
    ensures forall j :: 0 <= j < i ==> s[j] != '\n'
  {
    if s == [] then 0
    else if s[0] == '\n' then 0
    else 1 + FirstNewline(s[1..])
  }

  /** The lines of a text whose lines each end in a newline; a final
      unterminated line counts as a line too (what a reader of the
      report file gets back line by line). */
  function Lines(s: string): seq<string>
    decreases |s|
  {
    if s == [] then []
    else
      var i := FirstNewline(s);
      if i == |s| then [s] else [s[..i]] + Lines(s[i + 1..])
  }

  lemma FirstNewlineAfter(x: string, t: string)
    requires '\n' !in x
    ensures FirstNewline(x + "\n" + t) == |x|
  {
    var s := x + "\n" + t;
    assert s[|x|] == '\n';
  }

  /** Writing at least one line, none containing a newline (empty lines
      are fine), joined by "\n" plus a final "\n", and reading the text
      back line by line gives the lines back. */
  lemma {:induction false} LinesOfJoin(parts: seq<string>)
    requires |parts| > 0
    requires forall k :: 0 <= k < |parts| ==> '\n' !in parts[k]
    ensures Lines(Join(parts, "\n") + "\n") == parts
  {
    var s := Join(parts, "\n") + "\n";
    if |parts| == 1 {
      assert s == parts[0] + "\n" + "";
      FirstNewlineAfter(parts[0], "");
      assert s[|parts[0]| + 1..] == [];
      assert s[..|parts[0]|] == parts[0];
    } else {
      var rest := Join(parts[1..], "\n") + "\n";
      assert s == parts[0] + "\n" + rest;
      FirstNewlineAfter(parts[0], rest);
      assert s[..|parts[0]|] == parts[0];
      assert s[|parts[0]| + 1..] == rest;
      LinesOfJoin(parts[1..]);
      assert [parts[0]] + parts[1..] == parts;
    }
  }
}
