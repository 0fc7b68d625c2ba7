/**
 * The Python string operations the scraper relies on: str.strip, ''.join,
 * sep.join and str(int). Split (str.split) and ParseDecimal (int(s)) are not
 * called by the scraper: they are the inverses used to prove that the summary
 * join and the offset formatting lose nothing.
 */
module Text {

  /** str.isspace() for one character: exactly the characters str.strip() removes. */
  predicate IsSpace(c: char) {
    ('\t' <= c <= '\r') || ('\U{1c}' <= c <= ' ') || c == '\U{85}' || c == '\U{a0}'
    || c == '\U{1680}' || ('\U{2000}' <= c <= '\U{200a}') || c == '\U{2028}' || c == '\U{2029}'
    || c == '\U{202f}' || c == '\U{205f}' || c == '\U{3000}'
  }

  predicate AllSpace(s: string) {
    forall k :: 0 <= k < |s| ==> IsSpace(s[k])
  }

  /** Neither starts nor ends with whitespace. */
  predicate Trimmed(s: string) {
    s == [] || (!IsSpace(s[0]) && !IsSpace(s[|s| - 1]))
  }

  /** str.lstrip(): drops the whitespace at the front. */
  function TrimStart(s: string): (r: string)
    ensures |r| <= |s| && r == s[|s| - |r|..]
    ensures AllSpace(s[..|s| - |r|])
    ensures r == [] || !IsSpace(r[0])
  {
    if s != [] && IsSpace(s[0]) then
      var r := TrimStart(s[1..]);
      assert s[..|s| - |r|] == [s[0]] + s[1..][..|s| - 1 - |r|];
      r
    else s
  }

  /** str.rstrip(): drops the whitespace at the back. */
  function TrimEnd(s: string): (r: string)
    ensures |r| <= |s| && r == s[..|r|]
    ensures AllSpace(s[|r|..])
    ensures r == [] || !IsSpace(r[|r| - 1])
  {
    if s != [] && IsSpace(s[|s| - 1]) then
      var r := TrimEnd(s[..|s| - 1]);
      assert s[|r|..] == s[..|s| - 1][|r|..] + [s[|s| - 1]];
      r
    else s
  }

  /** str.strip(): lstrip, then rstrip. */
  function Strip(s: string): (r: string)
    ensures |r| <= |s|
    ensures Trimmed(r)
  {
    TrimEnd(TrimStart(s))
  }

  /** A suffix t of s, cut into a prefix r and the rest, puts s back together. */
  lemma Reassemble<T>(s: seq<T>, t: seq<T>, r: seq<T>)
    requires |t| <= |s| && t == s[|s| - |t|..]
    requires |r| <= |t| && r == t[..|r|]
    ensures s == s[..|s| - |t|] + r + t[|r|..]
  {
    assert s == s[..|s| - |t|] + t;
    assert t == r + t[|r|..];
  }

  /** s is r with whitespace before and after it. */
  predicate PaddedBy(s: string, front: string, r: string, back: string) {
    AllSpace(front) && AllSpace(back) && s == front + r + back
  }

  /** What strip keeps is what is left of its input once some whitespace is cut from either end. */
  lemma StripSlice(s: string)
    ensures exists front, back :: PaddedBy(s, front, Strip(s), back)
  {
    var t := TrimStart(s);
    var r := TrimEnd(t);
    Reassemble(s, t, r);
    var front, back := s[..|s| - |t|], t[|r|..];
    assert r == Strip(s);
    assert PaddedBy(s, front, Strip(s), back);
  }

  /** lstrip removes exactly the whitespace in front of a text that does not start with whitespace. */
  lemma {:induction false} TrimStartPadded(front: string, u: string)
    requires AllSpace(front)
    requires u == [] || !IsSpace(u[0])
    ensures TrimStart(front + u) == u
  {
    if front == [] {
      assert front + u == u;
    } else {
      assert (front + u)[1..] == front[1..] + u;
      TrimStartPadded(front[1..], u);
    }
  }

  /** rstrip removes exactly the whitespace after a text that does not end with whitespace. */
  lemma {:induction false} TrimEndPadded(u: string, back: string)
    requires AllSpace(back)
    requires u == [] || !IsSpace(u[|u| - 1])
    ensures TrimEnd(u + back) == u
  {
    if back == [] {
      assert u + back == u;
    } else {
      assert (u + back)[..|u + back| - 1] == u + back[..|back| - 1];
      TrimEndPadded(u, back[..|back| - 1]);
    }
  }

  /** Strip has one answer: padding a trimmed string with whitespace on both sides and stripping gives it back. */
  lemma StripPadded(front: string, t: string, back: string)
    requires AllSpace(front) && AllSpace(back) && Trimmed(t)
    ensures Strip(front + t + back) == t
  {
    if t == [] {
      assert front + t + back == front + back + [];
      TrimStartPadded(front + back, []);
    } else {
      assert front + t + back == front + (t + back);
      TrimStartPadded(front, t + back);
      TrimEndPadded(t, back);
    }
  }

  /** A trimmed string is its own strip, so stripping twice is stripping once. */
  lemma StripIdempotent(s: string)
    ensures Strip(Strip(s)) == Strip(s)
  {
    var t := Strip(s);
    assert TrimStart(t) == t;
    assert TrimEnd(t) == t;
  }

  /** Concatenation of a list of strings (''.join). */
  function Concat(parts: seq<string>): string {
    if parts == [] then [] else parts[0] + Concat(parts[1..])
  }

  /** Gluing trimmed strings together gives a trimmed string. */
  lemma {:induction false} ConcatTrimmed(parts: seq<string>)
    requires forall i :: 0 <= i < |parts| ==> Trimmed(parts[i])
    ensures Trimmed(Concat(parts))
  {
    if parts != [] {
      ConcatTrimmed(parts[1..]);
      var rest := Concat(parts[1..]);
      if parts[0] != [] {
        assert Concat(parts)[0] == parts[0][0];
        if rest == [] {
          assert Concat(parts) == parts[0];
        } else {
          assert Concat(parts)[|Concat(parts)| - 1] == rest[|rest| - 1];
        }
      } else {
        assert Concat(parts) == rest;
      }
    }
  }

  /** sep.join(parts). */
  function Join(sep: string, parts: seq<string>): string {
    if |parts| == 0 then [] else if |parts| == 1 then parts[0] else parts[0] + sep + Join(sep, parts[1..])
  }

  /** The length of sep.join(parts): every part, plus one separator between each two neighbours. */
  lemma {:induction false} JoinLength(sep: string, parts: seq<string>)
    requires parts != []
    ensures |Join(sep, parts)| == |Concat(parts)| + |sep| * (|parts| - 1)
  {
    if |parts| > 1 {
      JoinLength(sep, parts[1..]);
    }
  }

  /** sep occurs in s at index k. */
  predicate OccursAt(s: string, sep: string, k: nat) {
    k + |sep| <= |s| && s[k..k + |sep|] == sep
  }

  /** The first index from `start` on at which sep occurs in s, or |s| when there is none (str.find, with |s| for -1). */
  function Find(s: string, sep: string, start: nat): (i: nat)
    requires sep != [] && start <= |s|
    ensures start <= i <= |s|
    ensures i < |s| ==> OccursAt(s, sep, i)
    ensures forall k :: start <= k < i ==> !OccursAt(s, sep, k)
    decreases |s| - start
  {
    if |s| < start + |sep| then |s|
    else if OccursAt(s, sep, start) then start
    else Find(s, sep, start + 1)
  }

  /** s.split(sep): the pieces between the occurrences of sep, scanning from the left. */
  function Split(s: string, sep: string): (parts: seq<string>)
    requires sep != []
    ensures parts != []
    decreases |s|
  {
    var i := Find(s, sep, 0);
    if i == |s| then [s] else [s[..i]] + Split(s[i + |sep|..], sep)
  }

  /** No occurrence of sep in p + sep starts inside p: p cannot be confused with a separator after it. */
  predicate SeparatorFree(p: string, sep: string) {
    forall k :: 0 <= k < |p| ==> !OccursAt(p + sep, sep, k)
  }

  /** A separator-free part holds no separator of its own. */
  lemma FindInSeparatorFree(p: string, sep: string)
    requires sep != [] && SeparatorFree(p, sep)
    ensures Find(p, sep, 0) == |p|
  {
    forall k | 0 <= k < |p|
      ensures !OccursAt(p, sep, k)
    {
      assert !OccursAt(p + sep, sep, k);
      if k + |sep| <= |p| {
        assert p[k..k + |sep|] == (p + sep)[k..k + |sep|];
      }
    }
  }

  /** In p + sep + rest, the first separator is the one right after a separator-free p. */
  lemma FindAfterSeparatorFree(p: string, sep: string, rest: string)
    requires sep != [] && SeparatorFree(p, sep)
    ensures Find(p + sep + rest, sep, 0) == |p|
  {
    var s := p + sep + rest;
    assert s[|p|..|p| + |sep|] == sep;
    assert OccursAt(s, sep, |p|);
    forall k | 0 <= k < |p|
      ensures !OccursAt(s, sep, k)
    {
      assert !OccursAt(p + sep, sep, k);
      assert s[k..k + |sep|] == (p + sep)[k..k + |sep|];
    }
  }

  /** split undoes join when no part hides a separator. */
  lemma {:induction false} SplitJoin(sep: string, parts: seq<string>)
    requires sep != [] && parts != []
    requires forall i :: 0 <= i < |parts| ==> SeparatorFree(parts[i], sep)
    ensures Split(Join(sep, parts), sep) == parts
  {
    var p := parts[0];
    if |parts| == 1 {
      FindInSeparatorFree(p, sep);
    } else {
      var rest := Join(sep, parts[1..]);
      var s := p + sep + rest;
      FindAfterSeparatorFree(p, sep, rest);
      assert s[..|p|] == p;
      assert s[|p| + |sep|..] == rest;
      SplitJoin(sep, parts[1..]);
    }
  }

  /** No two newlines in a row. */
  predicate NoBlankLine(s: string) {
    forall k :: 0 <= k < |s| - 1 ==> !(s[k] == '\n' && s[k + 1] == '\n')
  }

  /** A trimmed string with no two newlines in a row cannot be confused with a following blank-line separator. */
  lemma BlankLineFree(p: string)
    requires Trimmed(p)
    requires NoBlankLine(p)
    ensures SeparatorFree(p, "\n\n")
  {
    forall k | 0 <= k < |p|
      ensures !OccursAt(p + "\n\n", "\n\n", k)
    {
      if k == |p| - 1 {
        assert (p + "\n\n")[k] == p[|p| - 1];
      } else {
        assert (p + "\n\n")[k..k + 2] == [p[k], p[k + 1]];
      }
    }
  }

  /** The character of a decimal digit. */
  function DigitChar(d: nat): char
    requires d < 10
  {
    (48 + d) as char
  }

  /** The value of a decimal digit character (0 for any other character). */
  function DigitValue(c: char): nat {
    if '0' <= c <= '9' then c as int - 48 else 0
  }

  /** str(n) for a natural number: its decimal digits, no leading zero. */
  function Decimal(n: nat): (s: string)
    ensures s != []
    ensures forall k :: 0 <= k < |s| ==> '0' <= s[k] <= '9'
    ensures |s| > 1 ==> s[0] != '0'
    decreases n
  {
    if n < 10 then [DigitChar(n)] else Decimal(n / 10) + [DigitChar(n % 10)]
  }

  /** int(s) for a string of decimal digits. */
  function ParseDecimal(s: string): nat {
    if s == [] then 0 else ParseDecimal(s[..|s| - 1]) * 10 + DigitValue(s[|s| - 1])
  }

  /** Reading back the decimal digits of n gives n. */
  lemma {:induction false} ParseDecimalOfDecimal(n: nat)
    ensures ParseDecimal(Decimal(n)) == n
    decreases n
  {
    if n < 10 {
      assert Decimal(n)[..0] == [];
    } else {
      var s := Decimal(n);
      assert s[..|s| - 1] == Decimal(n / 10);
      ParseDecimalOfDecimal(n / 10);
    }
  }

  /** Different numbers have different decimal strings. */
  lemma DecimalInjective(a: nat, b: nat)
    requires a != b
    ensures Decimal(a) != Decimal(b)
  {
    ParseDecimalOfDecimal(a);
    ParseDecimalOfDecimal(b);
  }
}
