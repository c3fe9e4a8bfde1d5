/** The string operations the statement renderers apply to control descriptions:
    `str.replace("\n", " ")`, `"\n\n".join(...)`, and, as the join's partner,
    `str.split("\n\n")`. */
module Text {

  /** The separator placed between descriptions: a blank line. */
  const Separator: string := "\n\n"

  predicate NoNewline(s: string) {
    forall i :: 0 <= i < |s| ==> s[i] != '\n'
  }

  /** `s.replace("\n", " ")`: every line break becomes a space and nothing else moves. */
  function CleanDesc(s: string): (r: string)
    ensures |r| == |s|
    ensures NoNewline(r)
    ensures forall i :: 0 <= i < |s| && s[i] != '\n' ==> r[i] == s[i]
    ensures forall i :: 0 <= i < |s| && s[i] == '\n' ==> r[i] == ' '
  {
    if s == [] then []
    else [if s[0] == '\n' then ' ' else s[0]] + CleanDesc(s[1..])
  }

  /** `"\n\n".join(xs)`. */
  function Join(xs: seq<string>): string
  {
    if |xs| == 0 then ""
    else if |xs| == 1 then xs[0]
    else xs[0] + Separator + Join(xs[1..])
  }

  /** `s.split("\n\n")`: scanning left to right, every non-overlapping blank line ends
      the current piece; `cur` is the piece read so far. */
  function SplitFrom(s: string, cur: string): (r: seq<string>)
    ensures |r| > 0
    decreases |s|
  {
    if |s| >= 2 && s[..2] == Separator then [cur] + SplitFrom(s[2..], "")
    else if s == [] then [cur]
    else SplitFrom(s[1..], cur + [s[0]])
  }

  function Split(s: string): (r: seq<string>)
    ensures |r| > 0
  {
    SplitFrom(s, "")
  }

  /** A piece without line breaks is read through whole into the current piece. */
  lemma {:induction false} SplitFromPiece(x: string, rest: string, cur: string)
    requires NoNewline(x)
    ensures SplitFrom(x + rest, cur) == SplitFrom(rest, cur + x)
    decreases |x|
  {
    if x == [] {
      assert x + rest == rest;
      assert cur + x == cur;
    } else {
      assert (x + rest)[0] == x[0] && x[0] != '\n';
      assert (x + rest)[1..] == x[1..] + rest;
      SplitFromPiece(x[1..], rest, cur + [x[0]]);
      assert cur + [x[0]] + x[1..] == cur + x;
    }
  }

  /** Splitting the join of a non-empty list of newline-free pieces gives the list back:
      the separator cannot occur inside a piece, so every blank line is a separator. */
  lemma {:induction false} SplitJoin(xs: seq<string>)
    requires |xs| > 0
    requires forall i :: 0 <= i < |xs| ==> NoNewline(xs[i])
    ensures Split(Join(xs)) == xs
    decreases |xs|
  {
    if |xs| == 1 {
      SplitFromPiece(xs[0], "", "");
      assert xs[0] + "" == xs[0];
    } else {
      var rest := Join(xs[1..]);
      assert Join(xs) == xs[0] + (Separator + rest);
      SplitFromPiece(xs[0], Separator + rest, "");
      assert "" + xs[0] == xs[0];
      assert (Separator + rest)[..2] == Separator;
      assert (Separator + rest)[2..] == rest;
      assert SplitFrom(Separator + rest, xs[0]) == [xs[0]] + Split(rest);
      SplitJoin(xs[1..]);
      assert xs == [xs[0]] + xs[1..];
    }
  }
}
