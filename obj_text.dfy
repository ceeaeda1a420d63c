/**
 * The string handling the OBJ parser relies on: `split` at one character,
 * `split` at runs of blanks (the pattern /[ \t]+/), decimal `parseInt`, and
 * the decimal rendering of a count used in generated mesh names.
 */
module ObjText {
  import opened Wrappers

  /** The first position from i that holds c, or |s|. */
  function IndexFrom(s: string, c: char, i: nat): (k: nat)
    requires i <= |s|
    ensures i <= k <= |s|
    ensures k < |s| ==> s[k] == c
    ensures forall j | i <= j < k :: s[j] != c
    decreases |s| - i
  {
    if i == |s| || s[i] == c then i else IndexFrom(s, c, i + 1)
  }

  /** The characters `/[ \t]/` matches. */
  predicate IsBlank(ch: char)
  {
    ch == ' ' || ch == '\t'
  }

  /** The first blank from i, or |s|. */
  function BlankFrom(s: string, i: nat): (k: nat)
    requires i <= |s|
    ensures i <= k <= |s|
    ensures k < |s| ==> IsBlank(s[k])
    ensures forall j | i <= j < k :: !IsBlank(s[j])
    decreases |s| - i
  {
    if i == |s| || IsBlank(s[i]) then i else BlankFrom(s, i + 1)
  }

  /** The first position from i that is not a blank, or |s|. */
  function NonBlankFrom(s: string, i: nat): (k: nat)
    requires i <= |s|
    ensures i <= k <= |s|
    ensures k < |s| ==> !IsBlank(s[k])
    ensures forall j | i <= j < k :: IsBlank(s[j])
    decreases |s| - i
  {
    if i == |s| || !IsBlank(s[i]) then i else NonBlankFrom(s, i + 1)
  }

  /** `s.split(c)`: the pieces between the occurrences of c, empty ones included. */
  function Split(s: string, c: char): (pieces: seq<string>)
    ensures |pieces| >= 1
  {
    SplitFrom(s, c, 0)
  }

  /** The pieces of s[i..] between the occurrences of c. */
  function SplitFrom(s: string, c: char, i: nat): (pieces: seq<string>)
    requires i <= |s|
    ensures |pieces| >= 1
    decreases |s| - i
  {
    var k := IndexFrom(s, c, i);
    if k == |s| then [s[i..]] else [s[i..k]] + SplitFrom(s, c, k + 1)
  }

  /** The pieces put back together with c between each two. */
  function Join(pieces: seq<string>, c: char): string
    requires |pieces| >= 1
  {
    if |pieces| == 1 then pieces[0] else pieces[0] + [c] + Join(pieces[1..], c)
  }

  /** Splitting and joining again gives the string back, and no piece holds c. */
  lemma SplitJoin(s: string, c: char)
    ensures Join(Split(s, c), c) == s
    ensures forall i | 0 <= i < |Split(s, c)| :: c !in Split(s, c)[i]
  {
    SplitFromJoin(s, c, 0);
    SplitFromFree(s, c, 0);
  }

  /** Joining the pieces of s[i..] gives s[i..] back. */
  lemma {:induction false} SplitFromJoin(s: string, c: char, i: nat)
    requires i <= |s|
    ensures Join(SplitFrom(s, c, i), c) == s[i..]
    decreases |s| - i
  {
    var k := IndexFrom(s, c, i);
    if k == |s| {
      assert SplitFrom(s, c, i) == [s[i..]];
    } else {
      var rest := SplitFrom(s, c, k + 1);
      assert SplitFrom(s, c, i) == [s[i..k]] + rest;
      SplitFromJoin(s, c, k + 1);
      JoinCons(s[i..k], rest, c);
      SliceAround(s, i, k);
    }
  }

  /** A suffix cut around one of its characters. */
  lemma SliceAround(s: string, i: nat, k: nat)
    requires i <= k < |s|
    ensures s[i..] == s[i..k] + [s[k]] + s[k + 1..]
  {
  }

  /** A piece in front of others, joined. */
  lemma JoinCons(x: string, rest: seq<string>, c: char)
    requires |rest| >= 1
    ensures Join([x] + rest, c) == x + [c] + Join(rest, c)
  {
    assert ([x] + rest)[1..] == rest;
  }

  /** No piece of s[i..] holds c. */
  lemma {:induction false} SplitFromFree(s: string, c: char, i: nat)
    requires i <= |s|
    ensures forall n | 0 <= n < |SplitFrom(s, c, i)| :: c !in SplitFrom(s, c, i)[n]
    decreases |s| - i
  {
    var k := IndexFrom(s, c, i);
    assert c !in s[i..k];
    if k < |s| {
      SplitFromFree(s, c, k + 1);
      var rest := SplitFrom(s, c, k + 1);
      assert forall n | 1 <= n < |SplitFrom(s, c, i)| :: SplitFrom(s, c, i)[n] == rest[n - 1];
    }
  }

  /** Joining pieces free of c and splitting again gives the pieces back. */
  lemma JoinSplit(pieces: seq<string>, c: char)
    requires |pieces| >= 1
    requires forall i | 0 <= i < |pieces| :: c !in pieces[i]
    ensures Split(Join(pieces, c), c) == pieces
  {
    var s := Join(pieces, c);
    JoinSplitFrom(s, c, 0, pieces);
  }

  /** JoinSplit for pieces joined at position i of s. */
  lemma {:induction false} JoinSplitFrom(s: string, c: char, i: nat, pieces: seq<string>)
    requires i <= |s| && |pieces| >= 1 && s[i..] == Join(pieces, c)
    requires forall n | 0 <= n < |pieces| :: c !in pieces[n]
    ensures SplitFrom(s, c, i) == pieces
    decreases |pieces|
  {
    var p := pieces[0];
    if |pieces| == 1 {
      assert s[i..i + |p|] == p;
      IndexAfterPiece(s, c, i, p);
      assert SplitFrom(s, c, i) == [s[i..]];
    } else {
      var e := i + |p|;
      var others := pieces[1..];
      assert pieces == [p] + others;
      JoinCons(p, others, c);
      SuffixParts(s, i, p, c, Join(others, c));
      IndexAfterPiece(s, c, i, p);
      JoinSplitFrom(s, c, e + 1, others);
      SplitFromStep(s, c, i);
    }
  }

  /** One piece of a split that continues past an occurrence of c. */
  lemma SplitFromStep(s: string, c: char, i: nat)
    requires i <= |s| && IndexFrom(s, c, i) < |s|
    ensures var k := IndexFrom(s, c, i); SplitFrom(s, c, i) == [s[i..k]] + SplitFrom(s, c, k + 1)
  {
  }

  /** The parts of a suffix made of a piece, a separator and a tail. */
  lemma SuffixParts(s: string, i: nat, p: string, c: char, tail: string)
    requires i <= |s| && s[i..] == p + [c] + tail
    ensures i + |p| < |s| && s[i..i + |p|] == p && s[i + |p|] == c && s[i + |p| + 1..] == tail
  {
    assert s[i..][..|p|] == p;
    assert s[i..][|p| + 1..] == tail;
  }

  /** A piece free of c at i, followed by c or the end, ends the first search for c from i. */
  lemma IndexAfterPiece(s: string, c: char, i: nat, p: string)
    requires i + |p| <= |s| && s[i..i + |p|] == p && c !in p
    requires i + |p| == |s| || s[i + |p|] == c
    ensures IndexFrom(s, c, i) == i + |p|
  {
    assert forall j | i <= j < i + |p| :: s[j] == p[j - i];
  }

  /**
   * `s.split(/[ \t]+/)`: the pieces between maximal runs of spaces and
   * tabs; a leading run gives an empty first piece, a trailing run an
   * empty last piece.
   */
  function SplitBlanks(s: string): (tokens: seq<string>)
    ensures |tokens| >= 1
  {
    SplitBlanksFrom(s, 0)
  }

  /** The tokens of s[i..]. */
  function SplitBlanksFrom(s: string, i: nat): (tokens: seq<string>)
    requires i <= |s|
    ensures |tokens| >= 1
    decreases |s| - i
  {
    var k := BlankFrom(s, i);
    if k == |s| then [s[i..]]
    else [s[i..k]] + SplitBlanksFrom(s, NonBlankFrom(s, k))
  }

  /** The characters of s[i..j] that are not blanks, in order. */
  function NonBlankOf(s: string, i: nat, j: nat): string
    requires i <= j <= |s|
    decreases j
  {
    if j == i then [] else NonBlankOf(s, i, j - 1) + (if IsBlank(s[j - 1]) then [] else [s[j - 1]])
  }

  /** The characters of s that are not blanks, in order. */
  function NonBlank(s: string): string
  {
    NonBlankOf(s, 0, |s|)
  }

  /** All tokens one after the other. */
  function Concat(tokens: seq<string>): string
  {
    if tokens == [] then [] else tokens[0] + Concat(tokens[1..])
  }

  /** No token holds a blank. */
  lemma TokensHaveNoBlank(s: string)
    ensures forall i, j | 0 <= i < |SplitBlanks(s)| && 0 <= j < |SplitBlanks(s)[i]| :: !IsBlank(SplitBlanks(s)[i][j])
  {
    TokensFromHaveNoBlank(s, 0);
  }

  /** TokensHaveNoBlank from position i on. */
  lemma {:induction false} TokensFromHaveNoBlank(s: string, i: nat)
    requires i <= |s|
    ensures forall n, j | 0 <= n < |SplitBlanksFrom(s, i)| && 0 <= j < |SplitBlanksFrom(s, i)[n]| ::
      !IsBlank(SplitBlanksFrom(s, i)[n][j])
    decreases |s| - i
  {
    var k := BlankFrom(s, i);
    if k < |s| {
      var m := NonBlankFrom(s, k);
      var rest := SplitBlanksFrom(s, m);
      TokensFromHaveNoBlank(s, m);
      assert SplitBlanksFrom(s, i) == [s[i..k]] + rest;
      forall n, j | 0 < n < |SplitBlanksFrom(s, i)| && 0 <= j < |SplitBlanksFrom(s, i)[n]|
        ensures !IsBlank(SplitBlanksFrom(s, i)[n][j])
      {
        assert SplitBlanksFrom(s, i)[n] == rest[n - 1];
      }
    }
  }

  /** Only the first and the last token may be empty. */
  lemma InnerTokensNonEmpty(s: string)
    ensures forall i | 0 < i < |SplitBlanks(s)| - 1 :: SplitBlanks(s)[i] != ""
  {
    InnerTokensFromNonEmpty(s, 0);
  }

  /**
   * InnerTokensNonEmpty from position i on; when s[i] is not a blank, the
   * first token is not empty either.
   */
  lemma {:induction false} InnerTokensFromNonEmpty(s: string, i: nat)
    requires i <= |s|
    ensures forall n | 0 < n < |SplitBlanksFrom(s, i)| - 1 :: SplitBlanksFrom(s, i)[n] != ""
    ensures i < |s| && !IsBlank(s[i]) ==> SplitBlanksFrom(s, i)[0] != ""
    decreases |s| - i
  {
    var k := BlankFrom(s, i);
    if k < |s| {
      var m := NonBlankFrom(s, k);
      var rest := SplitBlanksFrom(s, m);
      InnerTokensFromNonEmpty(s, m);
      assert SplitBlanksFrom(s, i) == [s[i..k]] + rest;
      forall n | 0 < n < |SplitBlanksFrom(s, i)| - 1 ensures SplitBlanksFrom(s, i)[n] != "" {
        assert SplitBlanksFrom(s, i)[n] == rest[n - 1];
      }
    }
  }

  /** The tokens together are the string with its blanks taken out. */
  lemma TokensConcat(s: string)
    ensures Concat(SplitBlanks(s)) == NonBlank(s)
  {
    TokensFromConcat(s, 0);
  }

  /** TokensConcat from position i on. */
  lemma {:induction false} TokensFromConcat(s: string, i: nat)
    requires i <= |s|
    ensures Concat(SplitBlanksFrom(s, i)) == NonBlankOf(s, i, |s|)
    decreases |s| - i
  {
    var k := BlankFrom(s, i);
    NonBlankKeeps(s, i, k);
    if k == |s| {
      assert Concat([s[i..]]) == s[i..] + Concat([]);
    } else {
      var m := NonBlankFrom(s, k);
      var rest := SplitBlanksFrom(s, m);
      TokensFromConcat(s, m);
      assert SplitBlanksFrom(s, i) == [s[i..k]] + rest;
      assert ([s[i..k]] + rest)[1..] == rest;
      NonBlankDrops(s, k, m);
      NonBlankAppend(s, i, k, m);
      NonBlankAppend(s, i, m, |s|);
    }
  }

  /** Filtering a range is filtering its two halves. */
  lemma {:induction false} NonBlankAppend(s: string, i: nat, k: nat, j: nat)
    requires i <= k <= j <= |s|
    ensures NonBlankOf(s, i, j) == NonBlankOf(s, i, k) + NonBlankOf(s, k, j)
    decreases j
  {
    if j > k {
      NonBlankAppend(s, i, k, j - 1);
    }
  }

  /** A range without blanks is kept whole. */
  lemma {:induction false} NonBlankKeeps(s: string, i: nat, j: nat)
    requires i <= j <= |s|
    requires forall n | i <= n < j :: !IsBlank(s[n])
    ensures NonBlankOf(s, i, j) == s[i..j]
    decreases j
  {
    if j > i {
      NonBlankKeeps(s, i, j - 1);
      assert s[i..j] == s[i..j - 1] + [s[j - 1]];
    }
  }

  /** A range of blanks is dropped. */
  lemma {:induction false} NonBlankDrops(s: string, i: nat, j: nat)
    requires i <= j <= |s|
    requires forall n | i <= n < j :: IsBlank(s[n])
    ensures NonBlankOf(s, i, j) == []
    decreases j
  {
    if j > i {
      NonBlankDrops(s, i, j - 1);
    }
  }

  predicate IsDigit(c: char)
  {
    '0' <= c <= '9'
  }

  /** The end of the run of digits starting at i. */
  function DigitsEnd(s: string, i: nat): (k: nat)
    requires i <= |s|
    ensures i <= k <= |s|
    ensures k < |s| ==> !IsDigit(s[k])
    ensures forall j | i <= j < k :: IsDigit(s[j])
    decreases |s| - i
  {
    if i == |s| || !IsDigit(s[i]) then i else DigitsEnd(s, i + 1)
  }

  /** The value of one decimal digit. */
  function DigitValue(c: char): (d: nat)
    requires IsDigit(c)
    ensures d < 10
  {
    c as int - '0' as int
  }

  /** The digit for a value below 10. */
  function DigitChar(d: nat): (c: char)
    requires d < 10
    ensures IsDigit(c) && DigitValue(c) == d
  {
    ('0' as int + d) as char
  }

  /** The value of a run of decimal digits, most significant first. */
  function Value(ds: string): nat
    requires forall j | 0 <= j < |ds| :: IsDigit(ds[j])
  {
    if ds == [] then 0 else Value(ds[..|ds| - 1]) * 10 + DigitValue(ds[|ds| - 1])
  }

  /**
   * `parseInt(s)` for decimal text: an optional sign and the longest run of
   * digits after it; NaN (None) when there is no digit there. What follows
   * the digits is ignored.
   */
  function ParseInt(s: string): (r: Option<int>)
  {
    var negative := |s| > 0 && s[0] == '-';
    var start := if |s| > 0 && (s[0] == '-' || s[0] == '+') then 1 else 0;
    var end := DigitsEnd(s, start);
    if end == start then None
    else
      var v: int := Value(s[start..end]);
      Some(if negative then -v else v)
  }

  /** The decimal digits of n, as `String(n)` writes them. */
  function Decimal(n: nat): (ds: string)
    ensures |ds| >= 1
    ensures forall j | 0 <= j < |ds| :: IsDigit(ds[j])
  {
    if n < 10 then [DigitChar(n)] else Decimal(n / 10) + [DigitChar(n % 10)]
  }

  /** Reading the digits of n gives n back. */
  lemma {:induction false} DecimalValue(n: nat)
    ensures Value(Decimal(n)) == n
  {
    if n >= 10 {
      DecimalValue(n / 10);
      assert Decimal(n)[..|Decimal(n)| - 1] == Decimal(n / 10);
    }
  }

  /** Different counts are written differently. */
  lemma DecimalInjective(a: nat, b: nat)
    ensures Decimal(a) == Decimal(b) ==> a == b
  {
    DecimalValue(a);
    DecimalValue(b);
  }

  /** An integer written in decimal, with a '-' when negative. */
  function Signed(n: int): string
  {
    if n < 0 then "-" + Decimal(-n) else Decimal(n)
  }

  /** parseInt reads a written integer back, whatever follows it that is not a digit. */
  lemma ParseSigned(n: int, rest: string)
    requires rest == [] || !IsDigit(rest[0])
    ensures ParseInt(Signed(n) + rest) == Some(n)
  {
    var m: nat := if n < 0 then -n else n;
    var ds := Decimal(m);
    var p := if n < 0 then "-" else "";
    var s := p + ds + rest;
    assert Signed(n) + rest == s;
    DigitsThenOther(p, ds, rest);
    DecimalValue(m);
    var start := |p|;
    if n < 0 {
      assert s[0] == '-';
    } else {
      assert s[0] == ds[0];
      assert IsDigit(ds[0]);
      assert s[0] != '-' && s[0] != '+';
    }
    assert Value(s[start..DigitsEnd(s, start)]) == m;
  }

  /** After a prefix, a run of digits followed by no digit is read up to its end. */
  lemma DigitsThenOther(p: string, ds: string, rest: string)
    requires forall j | 0 <= j < |ds| :: IsDigit(ds[j])
    requires rest == [] || !IsDigit(rest[0])
    ensures DigitsEnd(p + ds + rest, |p|) == |p| + |ds|
    ensures (p + ds + rest)[|p|..|p| + |ds|] == ds
  {
    var s := p + ds + rest;
    assert forall j | |p| <= j < |p| + |ds| :: s[j] == ds[j - |p|];
    if |p| + |ds| < |s| {
      assert s[|p| + |ds|] == rest[0];
    }
    assert s[|p|..|p| + |ds|] == ds;
  }
}
