/**
 The string operations the two scripts rely on, stated the way Python's
 `str` methods behave: `strip`, `split()[0]`, `upper`, `lower`, `isdigit`,
 `int` on a run of digits, and `dict.get` with the `or` fallback between
 alias column names.
 */
module Text {

  /** One tabular row (a CSV line read by `csv.DictReader`, or one JSON record): column name to text. */
  type Row = map<string, string>

  /** Python's `str.isspace` for one character. */
  predicate IsSpace(c: char) {
    var n := c as int;
    || n == 0x20 || 0x09 <= n <= 0x0D || 0x1C <= n <= 0x1F
    || n == 0x85 || n == 0xA0 || n == 0x1680 || 0x2000 <= n <= 0x200A
    || n == 0x2028 || n == 0x2029 || n == 0x202F || n == 0x205F || n == 0x3000
  }

  predicate AllSpace(s: string) {
    forall i :: 0 <= i < |s| ==> IsSpace(s[i])
  }

  /** Number of leading whitespace characters. */
  function Lead(s: string): (k: nat)
    ensures k <= |s|
    ensures forall i :: 0 <= i < k ==> IsSpace(s[i])
    ensures k == |s| || !IsSpace(s[k])
  {
    if |s| > 0 && IsSpace(s[0]) then 1 + Lead(s[1..]) else 0
  }

  /** Number of trailing whitespace characters. */
  function Trail(s: string): (k: nat)
    ensures k <= |s|
    ensures forall i :: |s| - k <= i < |s| ==> IsSpace(s[i])
    ensures k == |s| || !IsSpace(s[|s| - 1 - k])
  {
    if |s| > 0 && IsSpace(s[|s|-1]) then 1 + Trail(s[..|s|-1]) else 0
  }

  /** Python's `str.strip()` with no argument. */
  function Strip(s: string): (r: string)
    ensures Lead(s) + |r| <= |s| && r == s[Lead(s)..Lead(s) + |r|]
    ensures forall i :: Lead(s) + |r| <= i < |s| ==> IsSpace(s[i])
    ensures |r| == 0 || (!IsSpace(r[0]) && !IsSpace(r[|r|-1]))
  {
    var a := Lead(s);
    if a == |s| then "" else s[a..|s| - Trail(s)]
  }

  /** The leading-whitespace count is determined by the first non-blank position. */
  lemma LeadIs(s: string, k: nat)
    requires k <= |s|
    requires forall i :: 0 <= i < k ==> IsSpace(s[i])
    requires k == |s| || !IsSpace(s[k])
    ensures Lead(s) == k
  {
  }

  /** The trailing-whitespace count is determined by the last non-blank position. */
  lemma TrailIs(s: string, k: nat)
    requires k <= |s|
    requires forall i :: |s| - k <= i < |s| ==> IsSpace(s[i])
    requires k == |s| || !IsSpace(s[|s| - 1 - k])
    ensures Trail(s) == k
  {
  }

  /**
   `strip` is characterised by its result: whitespace, then a text with
   non-blank ends, then whitespace, always strips to that text.
   */
  lemma StripUnique(w1: string, x: string, w2: string)
    requires AllSpace(w1) && AllSpace(w2)
    requires |x| == 0 || (!IsSpace(x[0]) && !IsSpace(x[|x|-1]))
    ensures Strip(w1 + x + w2) == x
  {
    var s := w1 + x + w2;
    if |x| == 0 {
      assert forall i :: 0 <= i < |s| ==> IsSpace(s[i]) by {
        forall i | 0 <= i < |s| ensures IsSpace(s[i]) {
          if i < |w1| { assert s[i] == w1[i]; } else { assert s[i] == w2[i - |w1|]; }
        }
      }
      LeadIs(s, |s|);
    } else {
      assert forall i :: 0 <= i < |w1| ==> IsSpace(s[i]) by {
        forall i | 0 <= i < |w1| ensures IsSpace(s[i]) { assert s[i] == w1[i]; }
      }
      assert s[|w1|] == x[0];
      LeadIs(s, |w1|);
      assert forall i :: |s| - |w2| <= i < |s| ==> IsSpace(s[i]) by {
        forall i | |s| - |w2| <= i < |s| ensures IsSpace(s[i]) { assert s[i] == w2[i - |w1| - |x|]; }
      }
      assert s[|s| - 1 - |w2|] == x[|x|-1];
      TrailIs(s, |w2|);
      assert s[|w1|..|s| - |w2|] == x;
    }
  }

  /** A text that neither starts nor ends with whitespace strips to itself. */
  lemma StripUnpadded(s: string)
    requires |s| == 0 || (!IsSpace(s[0]) && !IsSpace(s[|s| - 1]))
    ensures Strip(s) == s
  {
    StripUnique("", s, "");
    assert "" + s + "" == s;
  }

  /** Stripping twice is stripping once. */
  lemma StripIdempotent(s: string)
    ensures Strip(Strip(s)) == Strip(s)
  {
    StripUnique("", Strip(s), "");
    assert "" + Strip(s) + "" == Strip(s);
  }

  /** `s` is the whitespace `strip` removes, around what it keeps. */
  lemma StripSplit(s: string) returns (p: string, q: string)
    ensures s == p + Strip(s) + q && AllSpace(p) && AllSpace(q)
  {
    var a := Lead(s);
    var r := Strip(s);
    p, q := s[..a], s[a + |r|..];
    assert s == p + s[a..a + |r|] + q;
  }

  /** Two runs of whitespace make one. */
  lemma AllSpaceAppend(u: string, v: string)
    requires AllSpace(u) && AllSpace(v)
    ensures AllSpace(u + v)
  {
    forall i | 0 <= i < |u + v| ensures IsSpace((u + v)[i]) {
      if i < |u| { assert (u + v)[i] == u[i]; } else { assert (u + v)[i] == v[i - |u|]; }
    }
  }

  /** Extra whitespace around a value does not change what `strip` returns. */
  lemma StripPadded(w1: string, s: string, w2: string)
    requires AllSpace(w1) && AllSpace(w2)
    ensures Strip(w1 + s + w2) == Strip(s)
  {
    var r := Strip(s);
    var p, q := StripSplit(s);
    AllSpaceAppend(w1, p);
    AllSpaceAppend(q, w2);
    assert w1 + s + w2 == (w1 + p) + r + (q + w2);
    StripUnique(w1 + p, r, q + w2);
  }

  /** `str.upper()` on one character, for the ASCII letters. */
  function UpperChar(c: char): char {
    if 'a' <= c <= 'z' then (c as int - 32) as char else c
  }

  /** `str.lower()` on one character, for the ASCII letters. */
  function LowerChar(c: char): char {
    if 'A' <= c <= 'Z' then (c as int + 32) as char else c
  }

  /** Python's `str.upper()` restricted to ASCII letters. */
  function Upper(s: string): (r: string)
    ensures |r| == |s| && forall i :: 0 <= i < |s| ==> r[i] == UpperChar(s[i])
  {
    seq(|s|, i requires 0 <= i < |s| => UpperChar(s[i]))
  }

  /** Python's `str.lower()` restricted to ASCII letters. */
  function Lower(s: string): (r: string)
    ensures |r| == |s| && forall i :: 0 <= i < |s| ==> r[i] == LowerChar(s[i])
  {
    seq(|s|, i requires 0 <= i < |s| => LowerChar(s[i]))
  }

  /** Upper-casing is idempotent. */
  lemma UpperIdempotent(s: string)
    ensures Upper(Upper(s)) == Upper(s)
  {
  }

  lemma UpperAppend(u: string, v: string)
    ensures Upper(u + v) == Upper(u) + Upper(v)
  {
  }

  /** Whitespace has no case. */
  lemma UpperBlank(w: string)
    requires AllSpace(w)
    ensures Upper(w) == w
  {
  }

  /** Upper-casing maps whitespace to whitespace and nothing else to it. */
  lemma UpperCharSpace(c: char)
    ensures IsSpace(UpperChar(c)) <==> IsSpace(c)
  {
    if 'a' <= c <= 'z' {
      assert 'A' as int <= UpperChar(c) as int <= 'Z' as int;
    }
  }

  /** Upper-casing leaves the whitespace around a text alone. */
  lemma UpperAround(w1: string, r: string, w2: string)
    requires AllSpace(w1) && AllSpace(w2)
    ensures Upper(w1 + r + w2) == w1 + Upper(r) + w2
  {
    var s, u := w1 + r + w2, w1 + Upper(r) + w2;
    forall i | 0 <= i < |s| ensures Upper(s)[i] == u[i] {
      if i < |w1| {
        assert s[i] == w1[i] == u[i] && IsSpace(w1[i]);
      } else if i < |w1| + |r| {
        assert s[i] == r[i - |w1|] && u[i] == Upper(r)[i - |w1|];
      } else {
        assert s[i] == w2[i - |w1| - |r|] == u[i] && IsSpace(w2[i - |w1| - |r|]);
      }
    }
  }

  /** Upper-casing never touches whitespace, so it commutes with `strip`. */
  lemma UpperStripCommute(s: string)
    ensures Upper(Strip(s)) == Strip(Upper(s))
  {
    var r := Strip(s);
    var w1, w2 := StripSplit(s);
    UpperAround(w1, r, w2);
    if |r| > 0 {
      UpperCharSpace(r[0]);
      UpperCharSpace(r[|r| - 1]);
    }
    StripUnique(w1, Upper(r), w2);
    assert Strip(Upper(s)) == Upper(r);
  }

  /** Python's `s.split()[0]` when `s` has a word; "" when it has none. */
  function FirstWord(s: string): (r: string)
    ensures Lead(s) + |r| <= |s| && r == s[Lead(s)..Lead(s) + |r|]
    ensures forall i :: 0 <= i < |r| ==> !IsSpace(r[i])
    ensures Lead(s) + |r| == |s| || IsSpace(s[Lead(s) + |r|])
  {
    WordPrefix(s[Lead(s)..])
  }

  /** The longest prefix of `s` free of whitespace. */
  function WordPrefix(s: string): (r: string)
    ensures r <= s
    ensures forall i :: 0 <= i < |r| ==> !IsSpace(r[i])
    ensures |r| == |s| || IsSpace(s[|r|])
  {
    if |s| == 0 || IsSpace(s[0]) then "" else [s[0]] + WordPrefix(s[1..])
  }

  /** The first word of a text that starts with a word ending at `k` is that word. */
  lemma {:induction false} WordPrefixIs(s: string, k: nat)
    requires k <= |s| && forall i :: 0 <= i < k ==> !IsSpace(s[i])
    requires k == |s| || IsSpace(s[k])
    ensures WordPrefix(s) == s[..k]
  {
    if k > 0 {
      WordPrefixIs(s[1..], k - 1);
      assert s[..k] == [s[0]] + s[1..][..k - 1];
    }
  }

  /** Python's `str.isdigit()` for ASCII text (true on "" only vacuously; callers check the length). */
  predicate AllDigits(s: string) {
    forall i :: 0 <= i < |s| ==> '0' <= s[i] <= '9'
  }

  function Pow10(w: nat): nat {
    if w == 0 then 1 else 10 * Pow10(w - 1)
  }

  /** Python's `int(s)` on a run of decimal digits. */
  function Value(s: string): (n: nat)
    requires AllDigits(s)
    ensures n < Pow10(|s|)
  {
    if |s| == 0 then 0 else 10 * Value(s[..|s|-1]) + (s[|s|-1] as int - '0' as int)
  }

  /** `n` written with exactly `w` decimal digits, zero-padded on the left (as `%02d`, `%04d`). */
  function Digits(n: nat, w: nat): (s: string)
    ensures |s| == w && AllDigits(s)
  {
    if w == 0 then "" else Digits(n / 10, w - 1) + [(n % 10 + '0' as int) as char]
  }

  /** Reading back a zero-padded number gives the number. */
  lemma {:induction false} ValueOfDigits(n: nat, w: nat)
    requires n < Pow10(w)
    ensures Value(Digits(n, w)) == n
  {
    if w > 0 {
      var d := Digits(n, w);
      assert d[..w-1] == Digits(n / 10, w - 1);
      ValueOfDigits(n / 10, w - 1);
    }
  }

  /** Writing back the value of a run of digits at its own width gives the run. */
  lemma {:induction false} DigitsOfValue(s: string)
    requires AllDigits(s)
    ensures Digits(Value(s), |s|) == s
  {
    if |s| > 0 {
      var p := s[..|s|-1];
      assert AllDigits(p);
      DigitsOfValue(p);
      assert Value(s) / 10 == Value(p);
      assert s == p + [s[|s|-1]];
    }
  }

  /** `row.get(key)`, with a missing column read as "". */
  function Get(row: Row, key: string): string {
    if key in row then row[key] else ""
  }

  /** `row.get(key) or row.get(alias) or ''`: the first non-empty of two alias columns. */
  function Either(row: Row, key: string, alias: string): (r: string)
    ensures r == "" <==> Get(row, key) == "" && Get(row, alias) == ""
    ensures r != "" ==> r == Get(row, key) || r == Get(row, alias)
  {
    if Get(row, key) != "" then Get(row, key) else Get(row, alias)
  }
}
