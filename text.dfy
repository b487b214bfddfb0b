/**
 * The java.lang.String operations the query element relies on, over `seq<char>`:
 * prefix and suffix tests, indexOf, trim, the decimal rendering of the key counters,
 * replaceAll("/", "\\/") and compareToIgnoreCase (ASCII case folding).
 */
module Text {
  import opened Wrappers

  /** The legacy variable marker; a leading one is stripped from several settings. */
  const Marker: string := "in."

  predicate StartsWith(s: string, p: string) {
    |p| <= |s| && s[..|p|] == p
  }

  predicate EndsWith(s: string, p: string) {
    |p| <= |s| && s[|s| - |p|..] == p
  }

  /** `p` occurs in `s` starting at index `j`. */
  predicate OccursAt(s: string, p: string, j: nat) {
    j + |p| <= |s| && s[j..j + |p|] == p
  }

  /** The first index from `from` on at which `p` occurs in `s`. */
  function FindFrom(s: string, p: string, from: nat): (r: Option<nat>)
    requires |p| > 0 && from <= |s|
    ensures r.Some? ==> from <= r.value && OccursAt(s, p, r.value)
    ensures r.Some? ==> forall j :: from <= j < r.value ==> !OccursAt(s, p, j)
    ensures r.None? ==> forall j :: from <= j <= |s| ==> !OccursAt(s, p, j)
    decreases |s| - from
  {
    if from + |p| > |s| then None
    else if s[from..from + |p|] == p then Some(from)
    else FindFrom(s, p, from + 1)
  }

  /** An occurrence with none before it (from `from` on) is the one FindFrom reports. */
  lemma FindFromExact(s: string, p: string, from: nat, at: nat)
    requires |p| > 0 && from <= at <= |s|
    requires OccursAt(s, p, at)
    requires forall j :: from <= j < at ==> !OccursAt(s, p, j)
    ensures FindFrom(s, p, from) == Some(at)
  {
  }

  /** The first index from `from` on that holds `c` (String.indexOf of a one-character string). */
  function FindChar(s: string, c: char, from: nat): (r: Option<nat>)
    requires from <= |s|
    ensures r.Some? ==> from <= r.value < |s| && s[r.value] == c
    ensures r.Some? ==> forall j :: from <= j < r.value ==> s[j] != c
    ensures r.None? ==> forall j :: from <= j < |s| ==> s[j] != c
    decreases |s| - from
  {
    if from == |s| then None
    else if s[from] == c then Some(from)
    else FindChar(s, c, from + 1)
  }

  /** FindChar(s, c, from) is the one occurrence of `c` with none before it. */
  lemma FindCharExact(s: string, c: char, from: nat, at: nat)
    requires from <= at < |s| && s[at] == c
    requires forall j :: from <= j < at ==> s[j] != c
    ensures FindChar(s, c, from) == Some(at)
  {
  }

  /** String.indexOf(p): the first index at which `p` occurs in `s`. */
  function Find(s: string, p: string): (r: Option<nat>)
    requires |p| > 0
    ensures r.Some? ==> OccursAt(s, p, r.value)
    ensures r.Some? ==> forall j :: 0 <= j < r.value ==> !OccursAt(s, p, j)
    ensures r.None? ==> forall j :: 0 <= j <= |s| ==> !OccursAt(s, p, j)
  {
    FindFrom(s, p, 0)
  }

  predicate Contains(s: string, p: string)
    requires |p| > 0
  {
    Find(s, p).Some?
  }

  /** String.indexOf(p, from): an index into `s`, or -1. */
  function IndexOf(s: string, p: string, from: nat): (r: int)
    requires |p| > 0 && from <= |s|
    ensures r == -1 || (from <= r && OccursAt(s, p, r))
    ensures r >= 0 ==> forall j :: from <= j < r ==> !OccursAt(s, p, j)
    ensures r == -1 ==> forall j :: from <= j <= |s| ==> !OccursAt(s, p, j)
  {
    match FindFrom(s, p, from)
    case None => -1
    case Some(k) => k
  }

  /** String.indexOf(c, from) for a one-character pattern: an index into `s`, or -1. */
  function IndexOfChar(s: string, c: char, from: nat): (r: int)
    requires from <= |s|
    ensures r == -1 || (from <= r < |s| && s[r] == c)
    ensures r >= 0 ==> forall j :: from <= j < r ==> s[j] != c
    ensures r == -1 ==> forall j :: from <= j < |s| ==> s[j] != c
  {
    match FindChar(s, c, from)
    case None => -1
    case Some(k) => k
  }

  /** String concatenation renders null as "null". */
  function Concatenable(s: Option<string>): string {
    match s
    case None => "null"
    case Some(t) => t
  }

  /** Removes one leading "in." (the `startsWith("in.") ... substring(3)` idiom). */
  function StripMarker(s: string): (r: string)
    ensures StartsWith(s, Marker) ==> Marker + r == s
    ensures !StartsWith(s, Marker) ==> r == s
  {
    if StartsWith(s, Marker) then s[3..] else s
  }

  /** A character String.trim removes. */
  predicate IsSpace(c: char) {
    c <= ' '
  }

  /** Where String.trim's text starts, searching forward from `i`. */
  function TrimFrom(s: string, i: nat): (k: nat)
    requires i <= |s|
    ensures i <= k <= |s| && (k == |s| || !IsSpace(s[k]))
    ensures forall m :: i <= m < k ==> IsSpace(s[m])
    decreases |s| - i
  {
    if i < |s| && IsSpace(s[i]) then TrimFrom(s, i + 1) else i
  }

  /** Where String.trim's text ends, searching back from `j` to no further than `i`. */
  function TrimTo(s: string, i: nat, j: nat): (k: nat)
    requires i <= j <= |s|
    ensures i <= k <= j && (k == i || !IsSpace(s[k - 1]))
    ensures forall m :: k <= m < j ==> IsSpace(s[m])
    decreases j
  {
    if j > i && IsSpace(s[j - 1]) then TrimTo(s, i, j - 1) else j
  }

  /** String.trim: strips the characters up to U+0020 from both ends. */
  function Trim(s: string): (r: string)
    ensures r == [] || (!IsSpace(r[0]) && !IsSpace(r[|r| - 1]))
  {
    var from := TrimFrom(s, 0);
    s[from..TrimTo(s, from, |s|)]
  }

  lemma TrimOfTrimmed(s: string)
    requires s == [] || (!IsSpace(s[0]) && !IsSpace(s[|s| - 1]))
    ensures Trim(s) == s
  {
    assert TrimFrom(s, 0) == 0;
  }

  /** Trim removes exactly the surrounding padding of a text that starts and ends with a non-space. */
  lemma TrimPadded(p: string, core: string, q: string)
    requires forall k :: 0 <= k < |p| ==> IsSpace(p[k])
    requires forall k :: 0 <= k < |q| ==> IsSpace(q[k])
    requires |core| > 0 && !IsSpace(core[0]) && !IsSpace(core[|core| - 1])
    ensures Trim(p + core + q) == core
  {
    var s := p + core + q;
    var from := |p|;
    var to := |p| + |core|;
    assert TrimFrom(s, 0) == from by {
      assert !IsSpace(s[from]);
      assert forall m :: 0 <= m < from ==> s[m] == p[m];
    }
    assert TrimTo(s, from, |s|) == to by {
      assert !IsSpace(s[to - 1]);
      assert forall m :: to <= m < |s| ==> s[m] == q[m - to];
    }
    assert s[from..to] == core;
  }

  // ---------------------------------------------------------------------
  // Decimal rendering of the key counters ("search_filter_attribute_" + pos)

  function DigitChar(d: nat): (c: char)
    requires d < 10
    ensures '0' <= c <= '9' && c as int - '0' as int == d
  {
    (('0' as int) + d) as char
  }

  /** Integer.toString for a non-negative counter. */
  function Decimal(n: nat): (r: string)
    ensures |r| > 0 && forall k :: 0 <= k < |r| ==> '0' <= r[k] <= '9'
  {
    if n < 10 then [DigitChar(n)] else Decimal(n / 10) + [DigitChar(n % 10)]
  }

  /** Reads a string of decimal digits back as a number. */
  function ParseDecimal(s: string): nat
    requires forall k :: 0 <= k < |s| ==> '0' <= s[k] <= '9'
  {
    if s == [] then 0
    else 10 * ParseDecimal(s[..|s| - 1]) + (s[|s| - 1] as int - '0' as int)
  }

  lemma {:induction false} DecimalRoundTrip(n: nat)
    ensures ParseDecimal(Decimal(n)) == n
  {
    if n >= 10 {
      var s := Decimal(n);
      assert s[..|s| - 1] == Decimal(n / 10);
      DecimalRoundTrip(n / 10);
    }
  }

  lemma DecimalInjective(m: nat, n: nat)
    ensures Decimal(m) == Decimal(n) ==> m == n
  {
    if Decimal(m) == Decimal(n) {
      DecimalRoundTrip(m);
      DecimalRoundTrip(n);
    }
  }

  // ---------------------------------------------------------------------
  // replaceAll("/", "\\\\/"): every slash of an entry name becomes a backslash-slash pair

  function EscapeSlashes(s: string): (r: string)
    ensures |r| >= |s|
  {
    if s == [] then []
    else (if s[0] == '/' then "\\/" else [s[0]]) + EscapeSlashes(s[1..])
  }

  /** The reading of an escaped name: a backslash-slash pair stands for one slash. */
  function UnescapeSlashes(s: string): string
  {
    if s == [] then []
    else if StartsWith(s, "\\/") then "/" + UnescapeSlashes(s[2..])
    else [s[0]] + UnescapeSlashes(s[1..])
  }

  lemma EscapedHead(s: string)
    ensures EscapeSlashes(s) == [] || EscapeSlashes(s)[0] != '/'
  {
  }

  /** No slash is left unescaped. */
  lemma {:induction false} EscapedSlashesArePaired(s: string, k: nat)
    requires k < |EscapeSlashes(s)| && EscapeSlashes(s)[k] == '/'
    ensures k > 0 && EscapeSlashes(s)[k - 1] == '\\'
  {
    if s != [] {
      var head: string := if s[0] == '/' then "\\/" else [s[0]];
      assert EscapeSlashes(s) == head + EscapeSlashes(s[1..]);
      if k >= |head| {
        EscapedSlashesArePaired(s[1..], k - |head|);
      }
    }
  }

  lemma {:induction false} EscapeRoundTrip(s: string)
    ensures UnescapeSlashes(EscapeSlashes(s)) == s
  {
    if s != [] {
      EscapeRoundTrip(s[1..]);
      var e := EscapeSlashes(s[1..]);
      EscapedHead(s[1..]);
      if s[0] == '/' {
        assert EscapeSlashes(s) == "\\/" + e;
        assert ("\\/" + e)[2..] == e;
      } else {
        assert EscapeSlashes(s) == [s[0]] + e;
        if |e| > 0 {
          assert ([s[0]] + e)[1] == e[0];
        }
        assert !StartsWith([s[0]] + e, "\\/");
        assert ([s[0]] + e)[1..] == e;
      }
    }
  }

  // ---------------------------------------------------------------------
  // compareToIgnoreCase, with case folding restricted to ASCII letters

  function Lower(c: char): char {
    if 'A' <= c <= 'Z' then ((c as int) + 32) as char else c
  }

  /** Sign-compatible with String.compareToIgnoreCase on ASCII text. */
  function CompareIgnoreCase(a: string, b: string): int
  {
    if a == [] || b == [] then |a| - |b|
    else if Lower(a[0]) != Lower(b[0]) then Lower(a[0]) as int - Lower(b[0]) as int
    else CompareIgnoreCase(a[1..], b[1..])
  }

  /** The string with every ASCII capital lowered. */
  function Folded(s: string): (r: string)
    ensures |r| == |s|
    ensures forall k :: 0 <= k < |s| ==> r[k] == Lower(s[k])
  {
    if s == [] then [] else [Lower(s[0])] + Folded(s[1..])
  }

  lemma {:induction false} CompareAntisymmetric(a: string, b: string)
    ensures CompareIgnoreCase(b, a) == -CompareIgnoreCase(a, b)
  {
    if a != [] && b != [] && Lower(a[0]) == Lower(b[0]) {
      CompareAntisymmetric(a[1..], b[1..]);
    }
  }

  /** Zero exactly when the two strings agree up to ASCII case. */
  lemma {:induction false} CompareZeroIffFoldedEqual(a: string, b: string)
    ensures CompareIgnoreCase(a, b) == 0 <==> Folded(a) == Folded(b)
  {
    if a != [] && b != [] {
      CompareZeroIffFoldedEqual(a[1..], b[1..]);
      if Lower(a[0]) != Lower(b[0]) {
        assert Folded(a)[0] != Folded(b)[0];
      } else {
        assert Folded(a) == [Lower(a[0])] + Folded(a[1..]);
        assert Folded(b) == [Lower(b[0])] + Folded(b[1..]);
        if Folded(a) == Folded(b) {
          assert Folded(a)[1..] == Folded(a[1..]);
          assert Folded(b)[1..] == Folded(b[1..]);
        }
      }
    }
  }

  lemma {:induction false} CompareTransitive(a: string, b: string, c: string)
    requires CompareIgnoreCase(a, b) <= 0 && CompareIgnoreCase(b, c) <= 0
    ensures CompareIgnoreCase(a, c) <= 0
  {
    if a != [] && b != [] && c != [] {
      if Lower(a[0]) == Lower(b[0]) && Lower(b[0]) == Lower(c[0]) {
        CompareTransitive(a[1..], b[1..], c[1..]);
      }
    }
  }

  lemma {:induction false} CompareStrictTransitive(a: string, b: string, c: string)
    requires CompareIgnoreCase(a, b) < 0 && CompareIgnoreCase(b, c) <= 0
    ensures CompareIgnoreCase(a, c) < 0
  {
    if a != [] && b != [] && c != [] {
      if Lower(a[0]) == Lower(b[0]) && Lower(b[0]) == Lower(c[0]) {
        CompareStrictTransitive(a[1..], b[1..], c[1..]);
      }
    }
  }
}
