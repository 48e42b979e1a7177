/**
 * The string operations the request builder, the file filters and the file namer rely on: lower-casing,
 * substring and suffix tests, the space escaping of a request URL and the decimal rendering of `%d`.
 */
module Text {

  /**
   * ASCII lower-casing of one character: String.toLowerCase on 'A'..'Z' under a default locale whose
   * case rules are the root ones (not Turkish or Azeri, where 'I' becomes a dotless i); other characters,
   * whose Java case mappings are not part of this model, are kept.
   */
  function LowerChar(c: char): char { if 'A' <= c <= 'Z' then (c as int + 32) as char else c }

  function Lower(s: string): (r: string)
    ensures |r| == |s| && forall i :: 0 <= i < |s| ==> r[i] == LowerChar(s[i])
  {
    seq(|s|, i requires 0 <= i < |s| => LowerChar(s[i]))
  }

  /** Lower-casing twice is lower-casing once. */
  lemma LowerIdempotent(s: string)
    ensures Lower(Lower(s)) == Lower(s)
  {
  }

  lemma LowerConcat(a: string, b: string)
    ensures Lower(a + b) == Lower(a) + Lower(b)
  {
  }

  /** `sub` occurs in `s` starting at index i. */
  predicate OccursAt(s: string, sub: string, i: int) {
    0 <= i && i + |sub| <= |s| && s[i..i + |sub|] == sub
  }

  /** String.contains. */
  predicate Contains(s: string, sub: string) {
    exists i :: 0 <= i <= |s| - |sub| && OccursAt(s, sub, i)
  }

  /** String.endsWith. */
  predicate EndsWith(s: string, suffix: string) {
    |suffix| <= |s| && s[|s| - |suffix|..] == suffix
  }

  /** An occurrence in one part of a concatenation is an occurrence in the whole. */
  lemma ContainsInConcat(a: string, b: string, sub: string)
    ensures Contains(a, sub) ==> Contains(a + b, sub)
    ensures Contains(b, sub) ==> Contains(a + b, sub)
  {
    if Contains(a, sub) {
      var i :| 0 <= i <= |a| - |sub| && OccursAt(a, sub, i);
      assert (a + b)[i..i + |sub|] == a[i..i + |sub|];
      assert OccursAt(a + b, sub, i);
    }
    if Contains(b, sub) {
      var i :| 0 <= i <= |b| - |sub| && OccursAt(b, sub, i);
      assert (a + b)[|a| + i..|a| + i + |sub|] == b[i..i + |sub|];
      assert OccursAt(a + b, sub, |a| + i);
    }
  }

  /**
   * When the first character of `sub` does not occur in `p`, an occurrence of `sub` in p + s cannot start
   * inside p, so p + s contains `sub` exactly when s does.
   */
  lemma ContainsAfterPrefix(p: string, s: string, sub: string)
    requires |sub| > 0 && sub[0] !in p
    ensures Contains(p + s, sub) <==> Contains(s, sub)
  {
    ContainsInConcat(p, s, sub);
    if Contains(p + s, sub) {
      var i :| 0 <= i <= |p + s| - |sub| && OccursAt(p + s, sub, i);
      assert i >= |p| by {
        if i < |p| {
          assert false;
        }
      }
      assert (p + s)[i..i + |sub|] == s[i - |p|..i - |p| + |sub|];
      assert OccursAt(s, sub, i - |p|);
    }
  }

  //////////////////////////////////////////////////////////////////////////////
  // Space escaping of a request URL: String.replace(" ", "%20")
  //////////////////////////////////////////////////////////////////////////////

  function EscapeSpaces(s: string): (r: string)
    ensures ' ' !in r
    ensures ' ' !in s ==> r == s
    ensures |r| >= |s|
  {
    if s == [] then []
    else (if s[0] == ' ' then "%20" else [s[0]]) + EscapeSpaces(s[1..])
  }

  /** Escaping works piecewise, so an escaped concatenation starts with the escaped first part. */
  lemma {:induction false} EscapeConcat(a: string, b: string)
    ensures EscapeSpaces(a + b) == EscapeSpaces(a) + EscapeSpaces(b)
  {
    if a == [] {
      assert a + b == b;
    } else {
      var head := if a[0] == ' ' then "%20" else [a[0]];
      assert (a + b)[0] == a[0];
      assert (a + b)[1..] == a[1..] + b;
      calc {
        EscapeSpaces(a + b);
        head + EscapeSpaces(a[1..] + b);
        { EscapeConcat(a[1..], b); }
        head + (EscapeSpaces(a[1..]) + EscapeSpaces(b));
        (head + EscapeSpaces(a[1..])) + EscapeSpaces(b);
        EscapeSpaces(a) + EscapeSpaces(b);
      }
    }
  }

  /** Decoding "%20" back to a space inverts the escaping of any text that had no "%" in it. */
  function UnescapeSpaces(s: string): string
  {
    if |s| >= 3 && s[..3] == "%20" then [' '] + UnescapeSpaces(s[3..])
    else if s == [] then []
    else [s[0]] + UnescapeSpaces(s[1..])
  }

  lemma {:induction false} EscapeRoundTrip(s: string)
    requires '%' !in s
    ensures UnescapeSpaces(EscapeSpaces(s)) == s
  {
    if s != [] {
      assert '%' !in s[1..];
      EscapeRoundTrip(s[1..]);
      var rest := EscapeSpaces(s[1..]);
      if s[0] == ' ' {
        UnescapeHead("%20", ' ', rest);
      } else {
        UnescapeHead([s[0]], s[0], rest);
      }
    }
  }

  /** One escaped character followed by escaped text decodes to that character followed by the decoded text. */
  lemma UnescapeHead(head: string, c: char, rest: string)
    requires (c == ' ' && head == "%20") || (c != '%' && c != ' ' && head == [c])
    ensures UnescapeSpaces(head + rest) == [c] + UnescapeSpaces(rest)
  {
    var e := head + rest;
    if c == ' ' {
      assert e[..3] == "%20" && e[3..] == rest;
    } else {
      assert e[0] == c && e[1..] == rest;
      assert !(|e| >= 3 && e[..3] == "%20");
    }
  }

  //////////////////////////////////////////////////////////////////////////////
  // Decimal rendering of integers (`%d`, StringBuffer.append(int))
  //////////////////////////////////////////////////////////////////////////////

  predicate IsDigit(c: char) { '0' <= c <= '9' }

  function DigitChar(d: nat): (c: char)
    requires d < 10
    ensures IsDigit(c)
  {
    ('0' as int + d) as char
  }

  function NatToDecimal(n: nat): (r: string)
    ensures |r| > 0 && forall i :: 0 <= i < |r| ==> IsDigit(r[i])
    decreases n
  {
    if n < 10 then [DigitChar(n)] else NatToDecimal(n / 10) + [DigitChar(n % 10)]
  }

  function IntToDecimal(i: int): string {
    if i < 0 then "-" + NatToDecimal(-i) else NatToDecimal(i)
  }

  /** The value of a string of decimal digits. */
  function DecimalValue(s: string): nat
    requires forall i :: 0 <= i < |s| ==> IsDigit(s[i])
  {
    if s == [] then 0
    else
      var last := s[|s| - 1];
      assert IsDigit(last);
      10 * DecimalValue(s[..|s| - 1]) + (last as int - '0' as int)
  }

  /** Reading back the rendering of n gives n, so distinct numbers have distinct renderings. */
  lemma {:induction false} DecimalRoundTrip(n: nat)
    ensures DecimalValue(NatToDecimal(n)) == n
  {
    if n >= 10 {
      var s := NatToDecimal(n);
      DecimalRoundTrip(n / 10);
      assert s[..|s| - 1] == NatToDecimal(n / 10);
    }
  }

  lemma NatToDecimalInjective(a: nat, b: nat)
    requires NatToDecimal(a) == NatToDecimal(b)
    ensures a == b
  {
    DecimalRoundTrip(a);
    DecimalRoundTrip(b);
  }

  /** The file stem "row_col" of the partition cell (row, col). */
  function RowColStem(row: nat, col: nat): string {
    NatToDecimal(row) + "_" + NatToDecimal(col)
  }

  /** Different cells get different stems, so no export overwrites another cell's file. */
  lemma RowColStemInjective(r1: nat, c1: nat, r2: nat, c2: nat)
    requires RowColStem(r1, c1) == RowColStem(r2, c2)
    ensures r1 == r2 && c1 == c2
  {
    var a1, a2 := NatToDecimal(r1), NatToDecimal(r2);
    var b1, b2 := NatToDecimal(c1), NatToDecimal(c2);
    var s := RowColStem(r1, c1);
    assert s == a1 + "_" + b1 && s == a2 + "_" + b2;
    assert s[|a1|] == '_' && s[|a2|] == '_';
    assert forall k :: 0 <= k < |a1| ==> s[k] == a1[k] && s[k] != '_';
    assert forall k :: 0 <= k < |a2| ==> s[k] == a2[k] && s[k] != '_';
    assert |a1| == |a2|;
    assert a1 == s[..|a1|] == a2;
    assert b1 == s[|a1| + 1..] == b2;
    NatToDecimalInjective(r1, r2);
    NatToDecimalInjective(c1, c2);
  }
}
