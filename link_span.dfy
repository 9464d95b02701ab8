/**
 * Shift+click on the editor: the whitespace-delimited word around the
 * clicked position is taken as a candidate link.
 */
module Links {
  import opened TextOps

  /**
   * [start, end) is the maximal run of non-whitespace characters around
   * `pos`: it contains `pos`'s neighbourhood, holds no whitespace, and is
   * bounded on each side by whitespace or an end of the text.
   */
  predicate TokenAround(text: seq<char>, pos: nat, start: nat, end: nat) {
    && start <= pos <= end <= |text|
    && (forall i :: start <= i < end ==> !IsSpace(text[i]))
    && (start == 0 || IsSpace(text[start - 1]))
    && (end == |text| || IsSpace(text[end]))
  }

  /**
   * The two scans of mousePressEvent: `start` walks left from the click
   * while the character before it is not whitespace, `end` walks right while
   * the character at it is not whitespace. The link is text[start..end].
   */
  method LinkSpanAt(text: seq<char>, pos: nat) returns (start: nat, end: nat)
    requires pos <= |text|
    ensures TokenAround(text, pos, start, end)
  {
    start := pos;
    while start > 0 && !IsSpace(text[start - 1])
      invariant start <= pos
      invariant forall i :: start <= i < pos ==> !IsSpace(text[i])
    {
      start := start - 1;
    }
    end := pos;
    while end < |text| && !IsSpace(text[end])
      invariant pos <= end <= |text|
      invariant forall i :: start <= i < end ==> !IsSpace(text[i])
    {
      end := end + 1;
    }
  }

  /**
   * The span depends only on the word clicked, not on where in it: a click
   * anywhere in [start, end] of one token finds that same token.
   */
  lemma TokenAroundUnique(text: seq<char>, p: nat, q: nat, s1: nat, e1: nat, s2: nat, e2: nat)
    requires TokenAround(text, p, s1, e1) && TokenAround(text, q, s2, e2)
    requires s1 <= q <= e1
    ensures s1 == s2 && e1 == e2
  {
  }
}
