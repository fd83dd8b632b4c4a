/** Symbol counting over a nucleotide sequence held as a string. */
module Nucleotides {

  /** The two symbols the GC metrics count. Only the upper-case letters
      qualify: 'g', 'c' and ambiguity codes are ordinary symbols. */
  predicate IsGc(ch: char) {
    ch == 'G' || ch == 'C'
  }

  /** Number of occurrences of `c` in `s`, as the string `count` method
      returns it for a one-character argument. */
  function Count(s: seq<char>, c: char): (n: nat)
    ensures n == multiset(s)[c]
    decreases |s|
  {
    if |s| == 0 then 0
    else
      assert s == [s[0]] + s[1..];
      (if s[0] == c then 1 else 0) + Count(s[1..], c)
  }

  /** Number of G plus number of C. */
  function GcCount(s: seq<char>): nat {
    Count(s, 'G') + Count(s, 'C')
  }

  /** Extending a sequence by one symbol adds one to the G+C count exactly
      when that symbol is an upper-case G or C. */
  lemma GcCountSnoc(s: seq<char>, x: char)
    ensures GcCount(s + [x]) == GcCount(s) + (if IsGc(x) then 1 else 0)
  {
    assert multiset(s + [x]) == multiset(s) + multiset{x};
  }

  /** The G+C count never exceeds the length, reaches it exactly when
      every symbol is G or C, and is zero exactly when none is. */
  lemma {:induction false} GcCountBounds(s: seq<char>)
    ensures GcCount(s) <= |s|
    ensures GcCount(s) == |s| <==> forall i :: 0 <= i < |s| ==> IsGc(s[i])
    ensures GcCount(s) == 0 <==> forall i :: 0 <= i < |s| ==> !IsGc(s[i])
    decreases |s|
  {
    if |s| > 0 {
      var init := s[..|s| - 1];
      var last := s[|s| - 1];
      assert s == init + [last];
      GcCountBounds(init);
      GcCountSnoc(init, last);
      assert forall i :: 0 <= i < |init| ==> init[i] == s[i];
    }
  }
}
