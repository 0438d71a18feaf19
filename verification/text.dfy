/**
 * String and number primitives of JavaScript and Python that the modelled code relies on:
 * substring search, first-occurrence and all-occurrence removal, whitespace trimming,
 * slicing, truthiness and number-to-string conversion.
 *
 * A string is a sequence of `char`, a Unicode scalar value. Python counts and indexes code
 * points, so a Python string is one `char` per code point. JavaScript counts and indexes
 * UTF-16 code units, so a JavaScript string is modelled exactly only when every character
 * lies in the Basic Multilingual Plane (`InBmp`), where one code point is one code unit.
 */
module Text {
  import opened Wrappers

  /** Every character is a single UTF-16 code unit, so JavaScript and Python measure `s` alike. */
  predicate InBmp(s: string) {
    forall i :: 0 <= i < |s| ==> s[i] as int < 0x10000
  }

  /** JavaScript and Python truthiness of an optional string: present and non-empty. */
  predicate Truthy(o: Option<string>) {
    o.Some? && o.value != ""
  }

  /** How an optional string is spliced into a JavaScript template literal. */
  function JsTemplate(o: Option<string>): string {
    match o
    case Some(s) => s
    case None => "undefined"
  }

  /** How an optional string is spliced into a Python f-string. */
  function PyFormat(o: Option<string>): string {
    match o
    case Some(s) => s
    case None => "None"
  }

  predicate HasPrefix(s: string, p: string) {
    |p| <= |s| && s[..|p|] == p
  }

  predicate HasSuffix(s: string, p: string) {
    |p| <= |s| && s[|s| - |p|..] == p
  }

  predicate OccursAt(s: string, pat: string, i: int) {
    0 <= i && i + |pat| <= |s| && s[i..i + |pat|] == pat
  }

  /** The first index at or after `from` where `pat` occurs (JavaScript `indexOf`, Python `find`). */
  function IndexOf(s: string, pat: string, from: nat): (r: Option<nat>)
    ensures r.Some? ==> from <= r.value && OccursAt(s, pat, r.value)
    ensures r.Some? ==> forall j :: from <= j < r.value ==> !OccursAt(s, pat, j)
    ensures r.None? ==> forall j :: from <= j ==> !OccursAt(s, pat, j)
    decreases |s| - from
  {
    if from + |pat| > |s| then None
    else if s[from..from + |pat|] == pat then Some(from)
    else IndexOf(s, pat, from + 1)
  }

  /** JavaScript `s.includes(pat)`, Python `pat in s`. */
  predicate Contains(s: string, pat: string) {
    IndexOf(s, pat, 0).Some?
  }

  lemma ContainsWitness(s: string, pat: string, i: int)
    requires OccursAt(s, pat, i)
    ensures Contains(s, pat)
  {
  }

  lemma NotContainsTail(s: string, pat: string)
    requires s != [] && !Contains(s, pat)
    ensures !Contains(s[1..], pat)
  {
    var t := IndexOf(s[1..], pat, 0);
    if t.Some? {
      var k := t.value;
      assert s[1..][k..k + |pat|] == s[k + 1..k + 1 + |pat|];
      assert OccursAt(s, pat, k + 1);
      assert false;
    }
  }

  /** JavaScript `s.replace(pat, '')` with a string pattern: only the first occurrence goes. */
  function RemoveFirst(s: string, pat: string): (r: string)
    ensures !Contains(s, pat) ==> r == s
    ensures Contains(s, pat) ==> |r| == |s| - |pat|
  {
    match IndexOf(s, pat, 0)
    case None => s
    case Some(i) => s[..i] + s[i + |pat|..]
  }

  /** Removing the first occurrence of `pat` from `a + pat + b`, when it is the one after `a`. */
  lemma RemoveFirstAt(a: string, pat: string, b: string)
    requires forall j :: 0 <= j < |a| ==> !OccursAt(a + pat + b, pat, j)
    ensures RemoveFirst(a + pat + b, pat) == a + b
  {
    var s := a + pat + b;
    assert s[|a|..|a| + |pat|] == pat;
    assert OccursAt(s, pat, |a|);
    var i := IndexOf(s, pat, 0);
    assert i == Some(|a|);
    assert s[..|a|] == a;
    assert s[|a| + |pat|..] == b;
  }

  /** Python `s.replace(pat, '')`: every non-overlapping occurrence, scanned left to right, goes. */
  function RemoveAll(s: string, pat: string): (r: string)
    requires |pat| > 0
    ensures |r| <= |s|
    ensures !Contains(s, pat) ==> r == s
    decreases |s|
  {
    if |s| < |pat| then s
    else if s[..|pat|] == pat then
      assert OccursAt(s, pat, 0);
      RemoveAll(s[|pat|..], pat)
    else
      assert !Contains(s, pat) ==> !Contains(s[1..], pat) by {
        if !Contains(s, pat) { NotContainsTail(s, pat); }
      }
      [s[0]] + RemoveAll(s[1..], pat)
  }

  /**
   * The first occurrence is removed and the scan resumes right after it: when no occurrence
   * starts inside `a`, removing every `pat` from `a + pat + b` keeps `a` and continues on `b`.
   * With the case without any occurrence this determines `RemoveAll` entirely.
   */
  lemma {:induction false} RemoveAllAt(a: string, pat: string, b: string)
    requires |pat| > 0
    requires forall j :: 0 <= j < |a| ==> !OccursAt(a + pat + b, pat, j)
    ensures RemoveAll(a + pat + b, pat) == a + RemoveAll(b, pat)
    decreases |a|
  {
    if a == [] {
      assert a + pat + b == pat + b;
      RemoveAllLeading(pat, b);
    } else {
      var s := a + pat + b;
      var rest := a[1..];
      TailOfJoin(a, pat, b);
      NoOccurrenceInTail(s, pat, |a|);
      RemoveAllSkipsFirst(s, pat);
      assert RemoveAll(s, pat) == [a[0]] + RemoveAll(rest + pat + b, pat);
      RemoveAllAt(rest, pat, b);
      assert RemoveAll(s, pat) == [a[0]] + (rest + RemoveAll(b, pat));
      assert [a[0]] + (rest + RemoveAll(b, pat)) == ([a[0]] + rest) + RemoveAll(b, pat);
      assert [a[0]] + rest == a;
    }
  }

  /** No occurrence among the first n starts of `s` means none among the first n - 1 of `s[1..]`. */
  lemma NoOccurrenceInTail(s: string, pat: string, n: nat)
    requires 1 <= n <= |s|
    requires forall j :: 0 <= j < n ==> !OccursAt(s, pat, j)
    ensures !OccursAt(s, pat, 0)
    ensures forall j :: 0 <= j < n - 1 ==> !OccursAt(s[1..], pat, j)
  {
    forall j | 0 <= j < n - 1
      ensures !OccursAt(s[1..], pat, j)
    {
      OccursAtTail(s, pat, j);
    }
  }

  /** A leading occurrence is dropped and the scan resumes after it. */
  lemma RemoveAllLeading(pat: string, b: string)
    requires |pat| > 0
    ensures RemoveAll(pat + b, pat) == RemoveAll(b, pat)
  {
    assert (pat + b)[..|pat|] == pat;
    assert (pat + b)[|pat|..] == b;
  }

  /** `(a + pat + b)[1..]` is `a[1..] + pat + b`, with first character `a[0]`. */
  lemma TailOfJoin(a: string, pat: string, b: string)
    requires a != []
    ensures (a + pat + b)[1..] == a[1..] + pat + b
    ensures (a + pat + b)[0] == a[0]
  {
  }

  /** Without an occurrence at 0, the first character is kept and the scan moves on by one. */
  lemma RemoveAllSkipsFirst(s: string, pat: string)
    requires |pat| > 0 && |s| >= |pat| && !OccursAt(s, pat, 0)
    ensures RemoveAll(s, pat) == [s[0]] + RemoveAll(s[1..], pat)
  {
    assert s[..|pat|] != pat;
  }

  /** An occurrence in `s[1..]` at `j` is one in `s` at `j + 1`. */
  lemma OccursAtTail(s: string, pat: string, j: nat)
    requires s != []
    ensures OccursAt(s[1..], pat, j) <==> OccursAt(s, pat, j + 1)
  {
    if j + |pat| <= |s| - 1 {
      assert s[1..][j..j + |pat|] == s[j + 1..j + 1 + |pat|];
    }
  }

  /**
   * The scan does not look again at what it has joined: removing ".pdf" from ".p.pdfdf"
   * leaves ".pdf", so the result of `RemoveAll` may still contain the pattern.
   */
  lemma RemoveAllMayLeavePattern()
    ensures RemoveAll(".p.pdfdf", ".pdf") == ".pdf"
    ensures Contains(RemoveAll(".p.pdfdf", ".pdf"), ".pdf")
  {
    var s := ".p.pdfdf";
    assert s == ".p" + ".pdf" + "df";
    assert !OccursAt(s, ".pdf", 0) by { assert s[0..4][2] == '.'; }
    assert !OccursAt(s, ".pdf", 1) by { assert s[1..5][0] == 'p'; }
    RemoveAllAt(".p", ".pdf", "df");
    assert RemoveAll("df", ".pdf") == "df";
    assert ".p" + "df" == ".pdf";
    ContainsWitness(".pdf", ".pdf", 0);
  }

  /**
   * Appending one more `pat` changes nothing in what `RemoveAll` leaves, provided `pat`
   * starts with a character that does not recur in it (true of ".pdf"): no occurrence can
   * start inside `x` and end inside the appended copy.
   */
  lemma {:induction false} RemoveAllAppended(x: string, pat: string)
    requires |pat| > 0
    requires forall k :: 1 <= k < |pat| ==> pat[k] != pat[0]
    ensures RemoveAll(x + pat, pat) == RemoveAll(x, pat)
    decreases |x|
  {
    var s := x + pat;
    if x == [] {
      assert s == pat;
      assert s[|pat|..] == [];
    } else if |x| >= |pat| && x[..|pat|] == pat {
      assert s[..|pat|] == pat;
      assert s[|pat|..] == x[|pat|..] + pat;
      RemoveAllAppended(x[|pat|..], pat);
    } else {
      // No occurrence starts at 0: with |x| < |pat| it would need pat[|x|] == pat[0].
      assert s[..|pat|] != pat by {
        if |x| >= |pat| {
          assert s[..|pat|] == x[..|pat|];
        } else {
          assert s[..|pat|][|x|] == pat[0];
        }
      }
      assert s[1..] == x[1..] + pat;
      RemoveAllAppended(x[1..], pat);
      if |x| < |pat| {
        assert RemoveAll(x[1..], pat) == x[1..];
        assert [x[0]] + x[1..] == x;
      }
    }
  }

  /** Python's `str.isspace` for one character. */
  predicate IsPyWhitespace(c: char) {
    var k := c as int;
    (9 <= k <= 13) || (0x1C <= k <= 0x20) || k == 0x85 || k == 0xA0 || k == 0x1680
    || (0x2000 <= k <= 0x200A) || k == 0x2028 || k == 0x2029 || k == 0x202F || k == 0x205F
    || k == 0x3000
  }

  /** ECMAScript WhiteSpace or LineTerminator, the characters `String.prototype.trim` removes. */
  predicate IsJsWhitespace(c: char) {
    var k := c as int;
    (9 <= k <= 13) || k == 0x20 || k == 0xA0 || k == 0x1680 || (0x2000 <= k <= 0x200A)
    || k == 0x2028 || k == 0x2029 || k == 0x202F || k == 0x205F || k == 0x3000 || k == 0xFEFF
  }

  /** `s` without its leading characters of class `ws`. */
  function TrimStart(s: string, ws: char -> bool): (r: string)
    ensures |r| <= |s| && r == s[|s| - |r|..]
    ensures forall k :: 0 <= k < |s| - |r| ==> ws(s[k])
    ensures r == [] || !ws(r[0])
  {
    if s == [] || !ws(s[0]) then s else TrimStart(s[1..], ws)
  }

  /** `s` without its trailing characters of class `ws`. */
  function TrimEnd(s: string, ws: char -> bool): (r: string)
    ensures |r| <= |s| && r == s[..|r|]
    ensures forall k :: |r| <= k < |s| ==> ws(s[k])
    ensures r == [] || !ws(r[|r| - 1])
  {
    if s == [] || !ws(s[|s| - 1]) then s else TrimEnd(s[..|s| - 1], ws)
  }

  /** Neither end of `s` is whitespace. */
  predicate HasNoEdgeSpace(s: string, ws: char -> bool) {
    s == [] || (!ws(s[0]) && !ws(s[|s| - 1]))
  }

  /** Trimming both ends leaves `s` unchanged exactly when neither end is whitespace. */
  lemma TrimFixpoint(s: string, ws: char -> bool)
    ensures TrimEnd(TrimStart(s, ws), ws) == s <==> HasNoEdgeSpace(s, ws)
    ensures HasNoEdgeSpace(TrimEnd(TrimStart(s, ws), ws), ws)
  {
    var t := TrimStart(s, ws);
    var r := TrimEnd(t, ws);
    if r != [] {
      assert r == t[..|r|];
      assert r[0] == t[0];
    }
    if HasNoEdgeSpace(s, ws) {
      TrimStartKeeps(s, ws);
      TrimEndKeeps(s, ws);
    }
  }

  lemma TrimStartKeeps(s: string, ws: char -> bool)
    requires s == [] || !ws(s[0])
    ensures TrimStart(s, ws) == s
  {
  }

  lemma TrimEndKeeps(s: string, ws: char -> bool)
    requires s == [] || !ws(s[|s| - 1])
    ensures TrimEnd(s, ws) == s
  {
  }

  /** Python `s.strip()`. */
  function PyStrip(s: string): (r: string)
    ensures HasNoEdgeSpace(r, IsPyWhitespace)
  {
    assert HasNoEdgeSpace(TrimEnd(TrimStart(s, IsPyWhitespace), IsPyWhitespace), IsPyWhitespace) by {
      TrimFixpoint(s, IsPyWhitespace);
    }
    TrimEnd(TrimStart(s, IsPyWhitespace), IsPyWhitespace)
  }

  /** JavaScript `s.trim()`. */
  function JsTrim(s: string): (r: string)
    ensures HasNoEdgeSpace(r, IsJsWhitespace)
  {
    assert HasNoEdgeSpace(TrimEnd(TrimStart(s, IsJsWhitespace), IsJsWhitespace), IsJsWhitespace) by {
      TrimFixpoint(s, IsJsWhitespace);
    }
    TrimEnd(TrimStart(s, IsJsWhitespace), IsJsWhitespace)
  }

  /** Python slicing `s[start:stop]`, with an absent bound as `None`. */
  function PySlice(s: string, start: Option<int>, stop: Option<int>): string {
    var n := |s|;
    var a := PySliceBound(start.GetOr(0), n);
    var b := PySliceBound(stop.GetOr(n), n);
    if a < b then s[a..b] else ""
  }

  /** A Python slice bound: negative counts from the end, then clamped to [0, n]. */
  function PySliceBound(i: int, n: nat): (r: nat)
    ensures r <= n
  {
    var j := if i < 0 then i + n else i;
    if j < 0 then 0 else if j > n then n else j
  }

  /** JavaScript `s.substring(start, end)`: both clamped to [0, length], then ordered. */
  function JsSubstring(s: string, start: int, end: Option<int>): string {
    var n := |s|;
    var a := JsClamp(start, n);
    var b := JsClamp(end.GetOr(n), n);
    if a <= b then s[a..b] else s[b..a]
  }

  function JsClamp(i: int, n: nat): (r: nat)
    ensures r <= n
  {
    if i < 0 then 0 else if i > n then n else i
  }

  /** The digit for `d`, lower-case beyond 9, as JavaScript's `toString(radix)` writes it. */
  function DigitChar(d: nat): char
    requires d < 16
  {
    if d < 10 then ('0' as int + d) as char else ('a' as int + d - 10) as char
  }

  /** The inverse of `DigitChar` on digits. */
  function DigitValue(c: char): nat {
    if '0' <= c <= '9' then c as int - '0' as int
    else if 'a' <= c <= 'f' then c as int - 'a' as int + 10
    else 0
  }

  lemma DigitCharValue(d: nat, radix: nat)
    requires d < radix <= 16
    ensures DigitValue(DigitChar(d)) == d && IsDigit(DigitChar(d), radix)
  {
  }

  predicate IsDigit(c: char, radix: nat) {
    ('0' <= c <= '9' && c as int - '0' as int < radix)
    || ('a' <= c <= 'f' && c as int - 'a' as int + 10 < radix)
  }

  /** A non-negative integer in base `radix` without leading zeros (JavaScript `n.toString(radix)`). */
  function NatToString(n: nat, radix: nat): (r: string)
    requires 2 <= radix <= 16
    ensures |r| >= 1
    decreases n
  {
    if n < radix then [DigitChar(n)] else NatToString(n / radix, radix) + [DigitChar(n % radix)]
  }

  /** Every character of the numeral is a digit of the radix, and there is no leading zero. */
  lemma {:induction false} NatToStringDigits(n: nat, radix: nat)
    requires 2 <= radix <= 16
    ensures forall i :: 0 <= i < |NatToString(n, radix)| ==> IsDigit(NatToString(n, radix)[i], radix)
    ensures n > 0 ==> NatToString(n, radix)[0] != '0'
    decreases n
  {
    if n >= radix {
      var q := n / radix;
      var front := NatToString(q, radix);
      var last := DigitChar(n % radix);
      assert NatToString(n, radix) == front + [last];
      DivMod(n, radix);
      assert q > 0 by { QuotientPositive(n, radix); }
      NatToStringDigits(q, radix);
      DigitCharValue(n % radix, radix);
      assert (front + [last])[0] == front[0];
    } else {
      DigitCharValue(n, radix);
    }
  }

  lemma QuotientPositive(n: nat, radix: nat)
    requires 2 <= radix <= n
    ensures n / radix > 0
  {
  }

  /** The value of a string of digits in base `radix`. */
  function ParseNat(s: string, radix: nat): nat {
    if s == [] then 0 else ParseNat(s[..|s| - 1], radix) * radix + DigitValue(s[|s| - 1])
  }

  lemma {:induction false} NatToStringRoundTrip(n: nat, radix: nat)
    requires 2 <= radix <= 16
    ensures ParseNat(NatToString(n, radix), radix) == n
    decreases n
  {
    if n < radix {
      DigitCharValue(n, radix);
      ParseNatLast([], DigitChar(n), radix);
    } else {
      var q, d := n / radix, n % radix;
      DivMod(n, radix);
      NatToStringRoundTrip(q, radix);
      DigitCharValue(d, radix);
      ParseNatLast(NatToString(q, radix), DigitChar(d), radix);
    }
  }

  lemma DivMod(n: nat, radix: nat)
    requires 2 <= radix <= n
    ensures n / radix < n && n % radix < radix && (n / radix) * radix + n % radix == n
  {
  }

  lemma ParseNatLast(s: string, c: char, radix: nat)
    ensures ParseNat(s + [c], radix) == ParseNat(s, radix) * radix + DigitValue(c)
  {
    assert (s + [c])[..|s|] == s;
  }

  /** Equal numerals mean equal numbers: `NatToString` is injective. */
  lemma NatToStringInjective(m: nat, n: nat, radix: nat)
    requires 2 <= radix <= 16
    ensures NatToString(m, radix) == NatToString(n, radix) <==> m == n
  {
    if NatToString(m, radix) == NatToString(n, radix) {
      NatToStringRoundTrip(m, radix);
      NatToStringRoundTrip(n, radix);
    }
  }

  function Pow(b: nat, k: nat): nat {
    if k == 0 then 1 else b * Pow(b, k - 1)
  }

  /** A number below radix^k has at most k digits. */
  lemma {:induction false} NatToStringLength(n: nat, radix: nat, k: nat)
    requires 2 <= radix <= 16 && k >= 1 && n < Pow(radix, k)
    ensures |NatToString(n, radix)| <= k
    decreases k
  {
    if n >= radix {
      var q := n / radix;
      assert |NatToString(n, radix)| == |NatToString(q, radix)| + 1;
      QuotientBelowPow(n, radix, k);
      NatToStringLength(q, radix, k - 1);
    }
  }

  /** A number from radix to below radix^k needs k >= 2, and its quotient is below radix^(k-1). */
  lemma QuotientBelowPow(n: nat, radix: nat, k: nat)
    requires 2 <= radix <= n && k >= 1 && n < Pow(radix, k)
    ensures k >= 2 && n / radix < Pow(radix, k - 1)
  {
    assert Pow(radix, 1) == radix * Pow(radix, 0) == radix;
    assert Pow(radix, k) == radix * Pow(radix, k - 1);
    DivBelow(n, radix, Pow(radix, k - 1));
  }

  /** A number below radix * p has a quotient below p. */
  lemma DivBelow(n: nat, radix: nat, p: nat)
    requires radix >= 2 && n < radix * p
    ensures n / radix < p
  {
    var q := n / radix;
    assert q * radix <= n;
    MulCancel(q, p, radix);
  }

  lemma MulCancel(q: nat, p: nat, radix: nat)
    requires radix >= 1 && q * radix < radix * p
    ensures q < p
  {
  }

  /** Python `str(i)` and JavaScript `String(i)` for an integer. */
  function IntToDecimal(i: int): string {
    if i < 0 then "-" + NatToString(-i, 10) else NatToString(i, 10)
  }
}
