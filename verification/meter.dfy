/**
 The text-volume meter: how many CJK Unified Ideographs (U+4E00 to U+9FA5,
 both ends included) a diff contains. The measurement is one regular-expression
 search for that character class followed by a loop that adds
 the length of every match.
 */
module Meter {

  /** First and last code point of the character class. */
  const CjkFirst: char := '\U{4E00}'
  const CjkLast: char := '\U{9FA5}'

  predicate IsCjk(c: char)
  {
    CjkFirst <= c <= CjkLast
  }

  /** Reference definition: the positions of `s` holding a CJK ideograph. */
  function CjkPositions(s: string): set<int>
  {
    set i | 0 <= i < |s| && IsCjk(s[i])
  }

  /** The list of matches the regular-expression search returns, in text order:
      every match is a one-character string. */
  function FindAll(s: string): (ms: seq<string>)
    ensures |ms| <= |s|
    ensures forall k :: 0 <= k < |ms| ==> |ms[k]| == 1 && IsCjk(ms[k][0]) && ms[k][0] in s
    decreases |s|
  {
    if |s| == 0 then []
    else
      var last := s[|s| - 1];
      assert forall c :: c in s[..|s| - 1] ==> c in s;
      FindAll(s[..|s| - 1]) + (if IsCjk(last) then [[last]] else [])
  }

  /** The accumulation loop over the matches: the sum of their lengths. */
  function SumLengths(ms: seq<string>): nat
    decreases |ms|
  {
    if |ms| == 0 then 0 else SumLengths(ms[..|ms| - 1]) + |ms[|ms| - 1]|
  }

  lemma {:induction false} SumLengthsAppend(a: seq<string>, b: seq<string>)
    ensures SumLengths(a + b) == SumLengths(a) + SumLengths(b)
    decreases |b|
  {
    if |b| > 0 {
      assert (a + b)[..|a + b| - 1] == a + b[..|b| - 1];
      SumLengthsAppend(a, b[..|b| - 1]);
    } else {
      assert a + b == a;
    }
  }

  /** The regular-expression search finds one match per CJK position. */
  lemma {:induction false} FindAllCountsPositions(s: string)
    ensures SumLengths(FindAll(s)) == |FindAll(s)| == |CjkPositions(s)|
    decreases |s|
  {
    if |s| > 0 {
      var p := s[..|s| - 1];
      FindAllCountsPositions(p);
      var tail: seq<string> := if IsCjk(s[|s| - 1]) then [[s[|s| - 1]]] else [];
      SumLengthsAppend(FindAll(p), tail);
      assert SumLengths(tail) == |tail| by {
        if |tail| == 1 {
          assert tail[..0] == [];
        }
      }
      var extra: set<int> := if IsCjk(s[|s| - 1]) then {|s| - 1} else {};
      assert CjkPositions(s) == CjkPositions(p) + extra;
      assert |s| - 1 !in CjkPositions(p);
    }
  }

  /** `calc_zh_word_count`: the summed length of the matches, never more than
      the length of `content`. */
  function ZhWordCount(content: string): (count: nat)
    ensures count <= |content|
  {
    FindAllCountsPositions(content);
    SumLengths(FindAll(content))
  }

  /** The count is the number of CJK ideographs in `content`. */
  lemma ZhWordCountPositions(content: string)
    ensures ZhWordCount(content) == |CjkPositions(content)|
  {
    FindAllCountsPositions(content);
  }

  lemma {:induction false} FindAllAppend(a: string, b: string)
    ensures FindAll(a + b) == FindAll(a) + FindAll(b)
    decreases |b|
  {
    if |b| == 0 {
      assert a + b == a;
    } else {
      var b' := b[..|b| - 1];
      assert (a + b)[..|a + b| - 1] == a + b';
      FindAllAppend(a, b');
    }
  }

  /** The count is additive over concatenation. */
  lemma ZhWordCountAppend(a: string, b: string)
    ensures ZhWordCount(a + b) == ZhWordCount(a) + ZhWordCount(b)
  {
    FindAllAppend(a, b);
    SumLengthsAppend(FindAll(a), FindAll(b));
  }

  /** The count is zero exactly when no character is a CJK ideograph. */
  lemma ZhWordCountZero(s: string)
    ensures ZhWordCount(s) == 0 <==> forall i :: 0 <= i < |s| ==> !IsCjk(s[i])
  {
    ZhWordCountPositions(s);
    assert forall i :: 0 <= i < |s| ==> (IsCjk(s[i]) <==> i in CjkPositions(s));
    if ZhWordCount(s) != 0 {
      var i :| i in CjkPositions(s);
    }
  }

  /** The count equals the length exactly when every character is a CJK ideograph. */
  lemma {:induction false} ZhWordCountFull(s: string)
    ensures ZhWordCount(s) == |s| <==> forall i :: 0 <= i < |s| ==> IsCjk(s[i])
    decreases |s|
  {
    if |s| > 0 {
      var p := s[..|s| - 1];
      assert s == p + [s[|s| - 1]];
      ZhWordCountAppend(p, [s[|s| - 1]]);
      ZhWordCountFull(p);
      assert ZhWordCount([s[|s| - 1]]) == (if IsCjk(s[|s| - 1]) then 1 else 0) by {
        assert [s[|s| - 1]][..0] == [];
      }
      assert forall i :: 0 <= i < |p| ==> p[i] == s[i];
    }
  }

  /** A text without ideographs counts zero. */
  lemma ZhWordCountAsciiSample()
    ensures ZhWordCount("") == 0
    ensures ZhWordCount("hello") == 0
  {
    ZhWordCountZero("hello");
  }

  /** Ideographs followed by text without any count as many as the ideographs. */
  lemma ZhWordCountSplit(zh: string, other: string)
    requires forall i :: 0 <= i < |zh| ==> IsCjk(zh[i])
    requires forall i :: 0 <= i < |other| ==> !IsCjk(other[i])
    ensures ZhWordCount(zh + other) == |zh|
  {
    ZhWordCountFull(zh);
    ZhWordCountZero(other);
    ZhWordCountAppend(zh, other);
  }

  /** Two ideographs followed by Latin letters count two. */
  lemma ZhWordCountMixedSample()
    ensures ZhWordCount("\U{4F60}\U{597D}world") == 2
  {
    ZhWordCountSplit("\U{4F60}\U{597D}", "world");
    assert "\U{4F60}\U{597D}" + "world" == "\U{4F60}\U{597D}world";
  }
}
