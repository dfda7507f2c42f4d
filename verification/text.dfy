/** The string operations the importer and the queries rely on: Python's
    `str.strip`, `str.lower`, `str.split(',')`, `','.join`, substring and
    prefix tests, string ordering and decimal integers. */
module Text {
  import opened Wrappers

  /** Python's `str.isspace` for one code point. */
  predicate IsSpace(c: char) {
    var n := c as int;
    n == 0x20 || 0x09 <= n <= 0x0D || 0x1C <= n <= 0x1F || n == 0x85 || n == 0xA0
    || n == 0x1680 || 0x2000 <= n <= 0x200A || n == 0x2028 || n == 0x2029
    || n == 0x202F || n == 0x205F || n == 0x3000
  }

  predicate AllSpace(s: string) {
    forall i :: 0 <= i < |s| ==> IsSpace(s[i])
  }

  /** Neither end of `s` is whitespace. */
  predicate IsTrimmed(s: string) {
    s == [] || (!IsSpace(s[0]) && !IsSpace(s[|s| - 1]))
  }

  /** `r` is `s` with a whitespace-only head and tail cut off. */
  ghost predicate IsTrimOf(r: string, s: string) {
    exists a, b | 0 <= a <= b <= |s| :: s[a..b] == r && AllSpace(s[..a]) && AllSpace(s[b..])
  }

  function TrimStart(s: string): (r: string)
    ensures |r| <= |s| && r == s[|s| - |r|..]
    ensures r == [] || !IsSpace(r[0])
  {
    if |s| > 0 && IsSpace(s[0]) then TrimStart(s[1..]) else s
  }

  lemma {:induction false} TrimStartCutsSpace(s: string)
    ensures AllSpace(s[..|s| - |TrimStart(s)|])
  {
    if |s| > 0 && IsSpace(s[0]) {
      var r := TrimStart(s[1..]);
      TrimStartCutsSpace(s[1..]);
      var cut := s[1..][..|s| - 1 - |r|];
      assert s[..|s| - |r|] == [s[0]] + cut;
      AllSpaceCons(s[0], cut);
    }
  }

  lemma AllSpaceCons(c: char, t: string)
    requires IsSpace(c) && AllSpace(t)
    ensures AllSpace([c] + t)
  {
    forall i | 0 <= i < |t| + 1 ensures IsSpace(([c] + t)[i]) {
      if i > 0 {
        assert ([c] + t)[i] == t[i - 1];
      }
    }
  }

  function TrimEnd(s: string): (r: string)
    ensures |r| <= |s| && r == s[..|r|]
    ensures r == [] || !IsSpace(r[|r| - 1])
  {
    if |s| > 0 && IsSpace(s[|s| - 1]) then TrimEnd(s[..|s| - 1]) else s
  }

  lemma {:induction false} TrimEndCutsSpace(s: string)
    ensures AllSpace(s[|TrimEnd(s)|..])
  {
    if |s| > 0 && IsSpace(s[|s| - 1]) {
      var r := TrimEnd(s[..|s| - 1]);
      TrimEndCutsSpace(s[..|s| - 1]);
      assert s[|r|..] == s[..|s| - 1][|r|..] + [s[|s| - 1]];
    }
  }

  /** Python's `str.strip()` with no argument. */
  function Trim(s: string): (r: string)
    ensures IsTrimmed(r)
    ensures |r| <= |s|
  {
    TrimEnd(TrimStart(s))
  }

  /** What `strip` removes is whitespace at the two ends and nothing else. */
  lemma TrimIsSlice(s: string)
    ensures IsTrimOf(Trim(s), s)
    ensures forall c :: c in Trim(s) ==> c in s
  {
    var t := TrimStart(s);
    var r := TrimEnd(t);
    var a := |s| - |t|;
    TrimStartCutsSpace(s);
    TrimEndCutsSpace(t);
    assert s[a..a + |r|] == r;
    assert s[a + |r|..] == t[|r|..];
  }

  /** Stripping a string that is already stripped changes nothing. */
  lemma TrimOfTrimmed(s: string)
    requires IsTrimmed(s)
    ensures Trim(s) == s
  {
  }

  /** Stripping twice is stripping once. */
  lemma TrimIdempotent(s: string)
    ensures Trim(Trim(s)) == Trim(s)
  {
    TrimOfTrimmed(Trim(s));
  }

  /** ASCII `str.lower()` on one character. */
  function LowerChar(c: char): char {
    if 'A' <= c <= 'Z' then (c as int + 32) as char else c
  }

  function Lower(s: string): (r: string)
    ensures |r| == |s|
  {
    if s == [] then [] else [LowerChar(s[0])] + Lower(s[1..])
  }

  lemma {:induction false} LowerAt(s: string, i: nat)
    requires i < |s|
    ensures Lower(s)[i] == LowerChar(s[i])
  {
    if i > 0 {
      LowerAt(s[1..], i - 1);
    }
  }

  lemma LowerIdempotent(s: string)
    ensures Lower(Lower(s)) == Lower(s)
  {
    if s != [] {
      LowerIdempotent(s[1..]);
    }
  }

  predicate StartsWith(s: string, p: string) {
    |p| <= |s| && s[..|p|] == p
  }

  /** `q` occurs in `s` as a contiguous piece. */
  predicate Contains(s: string, q: string) {
    exists i | 0 <= i <= |s| :: StartsWith(s[i..], q)
  }

  /** Case-insensitive substring test: the meaning of `ILIKE '%q%'`. */
  predicate ContainsCI(s: string, q: string) {
    Contains(Lower(s), Lower(q))
  }

  /** Case-insensitive prefix test: the meaning of `ILIKE 'q%'`. */
  predicate StartsWithCI(s: string, q: string) {
    StartsWith(Lower(s), Lower(q))
  }

  /** `sep.join(parts)`. */
  function Join(parts: seq<string>, sep: char): string {
    if |parts| == 0 then ""
    else if |parts| == 1 then parts[0]
    else parts[0] + [sep] + Join(parts[1..], sep)
  }

  /** `s.split(sep)`: the pieces between separators, empties included. */
  function Split(s: string, sep: char): (r: seq<string>)
    ensures |r| >= 1
    ensures forall k :: 0 <= k < |r| ==> sep !in r[k]
  {
    if s == [] then [""]
    else
      var rest := Split(s[1..], sep);
      if s[0] == sep then [""] + rest
      else [[s[0]] + rest[0]] + rest[1..]
  }

  /** Joining the pieces of a split with the same separator gives back the string. */
  lemma {:induction false} JoinSplit(s: string, sep: char)
    ensures Join(Split(s, sep), sep) == s
  {
    if s != [] {
      var rest := Split(s[1..], sep);
      JoinSplit(s[1..], sep);
      if s[0] == sep {
        assert Split(s, sep) == [""] + rest;
        assert Join([""] + rest, sep) == "" + [sep] + Join(rest, sep);
      } else {
        var parts := [[s[0]] + rest[0]] + rest[1..];
        assert Split(s, sep) == parts;
        JoinCons(s[0], rest, sep);
      }
    }
  }

  /** Putting a character in front of the first part puts it in front of the join. */
  lemma JoinCons(c: char, parts: seq<string>, sep: char)
    requires |parts| >= 1
    ensures Join([[c] + parts[0]] + parts[1..], sep) == [c] + Join(parts, sep)
  {
    var ps := [[c] + parts[0]] + parts[1..];
    assert ps[1..] == parts[1..];
  }

  /** Splitting a join of separator-free parts gives back the parts. */
  lemma {:induction false} SplitJoin(parts: seq<string>, sep: char)
    requires |parts| >= 1
    requires forall k :: 0 <= k < |parts| ==> sep !in parts[k]
    ensures Split(Join(parts, sep), sep) == parts
    decreases |Join(parts, sep)|
  {
    var s := Join(parts, sep);
    if parts[0] == "" {
      if |parts| > 1 {
        assert s == [sep] + Join(parts[1..], sep);
        assert s[1..] == Join(parts[1..], sep);
        SplitJoin(parts[1..], sep);
        assert parts == [""] + parts[1..];
      }
    } else {
      var c := parts[0][0];
      var tail := [parts[0][1..]] + parts[1..];
      assert parts[0] == [c] + tail[0];
      assert tail[1..] == parts[1..];
      assert [[c] + tail[0]] + tail[1..] == parts;
      JoinCons(c, tail, sep);
      assert s == [c] + Join(tail, sep);
      assert s[1..] == Join(tail, sep);
      assert forall k :: 0 <= k < |tail| ==> sep !in tail[k] by {
        forall k | 0 <= k < |tail| ensures sep !in tail[k] {
          if k == 0 {
            assert forall x :: x in parts[0][1..] ==> x in parts[0];
          } else {
            assert tail[k] == parts[k];
          }
        }
      }
      SplitJoin(tail, sep);
    }
  }

  /** Python's `<` on strings: code-point lexicographic order. */
  predicate Less(a: string, b: string)
    decreases |a|
  {
    if |a| == 0 then |b| > 0
    else if |b| == 0 then false
    else if a[0] != b[0] then a[0] < b[0]
    else Less(a[1..], b[1..])
  }

  lemma LessIrreflexive(a: string)
    ensures !Less(a, a)
  {
  }

  lemma LessTransitive(a: string, b: string, c: string)
    requires Less(a, b) && Less(b, c)
    ensures Less(a, c)
  {
  }

  lemma LessTotal(a: string, b: string)
    ensures a == b || Less(a, b) || Less(b, a)
  {
    if |a| > 0 && |b| > 0 && a[0] == b[0] {
      LessTotal(a[1..], b[1..]);
      if a[1..] == b[1..] {
        assert a == [a[0]] + a[1..];
        assert b == [b[0]] + b[1..];
      }
    }
  }

  predicate StrictlySorted(s: seq<string>) {
    forall i, j :: 0 <= i < j < |s| ==> Less(s[i], s[j])
  }

  /** Adds `x` to a strictly sorted list unless it is already there. */
  function InsertSorted(x: string, s: seq<string>): (r: seq<string>)
    requires StrictlySorted(s)
    ensures StrictlySorted(r)
    ensures forall y :: y in r <==> y == x || y in s
  {
    if s == [] then [x]
    else if x == s[0] then s
    else if Less(x, s[0]) then
      assert forall j :: 0 <= j < |s| ==> Less(x, s[j]) by {
        forall j | 0 <= j < |s| ensures Less(x, s[j]) {
          if j > 0 { LessTransitive(x, s[0], s[j]); }
        }
      }
      [x] + s
    else
      var rest := InsertSorted(x, s[1..]);
      LessTotal(x, s[0]);
      assert forall y :: y in rest ==> Less(s[0], y);
      [s[0]] + rest
  }

  function DigitChar(d: nat): char
    requires d < 10
  {
    (48 + d) as char
  }

  predicate IsDigit(c: char) {
    '0' <= c <= '9'
  }

  predicate AllDigits(s: string) {
    forall i :: 0 <= i < |s| ==> IsDigit(s[i])
  }

  /** Decimal rendering of a natural number, as Python's `str(n)`. */
  function NatToString(n: nat): (r: string)
    ensures |r| >= 1
    decreases n
  {
    if n < 10 then [DigitChar(n)] else NatToString(n / 10) + [DigitChar(n % 10)]
  }

  lemma NatToStringDigits(n: nat)
    ensures AllDigits(NatToString(n))
  {
  }

  /** The value of a string of decimal digits. */
  function DigitsValue(s: string): nat
    requires AllDigits(s)
  {
    if s == [] then 0 else DigitsValue(s[..|s| - 1]) * 10 + (s[|s| - 1] as int - 48)
  }

  /** `str(n)` read back as digits gives `n`. */
  lemma {:induction false} DigitsOfNat(n: nat)
    ensures AllDigits(NatToString(n))
    ensures DigitsValue(NatToString(n)) == n
    decreases n
  {
    NatToStringDigits(n);
    if n >= 10 {
      var s := NatToString(n);
      DigitsOfNat(n / 10);
      assert s[..|s| - 1] == NatToString(n / 10);
    }
  }

  /** Python's `str(n)` for an integer. */
  function IntToString(n: int): (r: string) {
    if n < 0 then "-" + NatToString(-n) else NatToString(n)
  }

  /** Python's `int(s)` for base-10 text: surrounding whitespace, an optional
      sign, then one or more ASCII digits. `None` stands for `ValueError`. */
  function ParseInt(s: string): (r: Option<int>)
    ensures r.Some? ==> |Trim(s)| >= 1
  {
    ParseSigned(Trim(s))
  }

  /** An optional sign followed by one or more ASCII digits, nothing else. */
  function ParseSigned(t: string): (r: Option<int>)
    ensures r.Some? ==> |t| >= 1
  {
    if |t| >= 1 && t[0] == '-' then
      match ParseDigits(t[1..])
      case Some(v) => Some(-v)
      case None => None
    else if |t| >= 1 && t[0] == '+' then ParseDigits(t[1..])
    else ParseDigits(t)
  }

  /** One or more ASCII digits, nothing else. */
  function ParseDigits(u: string): (r: Option<int>)
    ensures r.Some? ==> |u| >= 1 && r.value >= 0
  {
    if |u| >= 1 && AllDigits(u) then Some(DigitsValue(u)) else None
  }

  /** A digit string is read back as its value. */
  lemma ParseSignedOfDigits(d: string)
    requires |d| >= 1 && AllDigits(d)
    ensures ParseSigned(d) == Some(DigitsValue(d) as int)
  {
    assert !(d[0] == '-' || d[0] == '+');
  }

  /** A digit string after a minus sign is read back as the negated value. */
  lemma ParseSignedOfNegated(d: string, s: string)
    requires |d| >= 1 && AllDigits(d) && s == "-" + d
    ensures ParseSigned(s) == Some(-(DigitsValue(d) as int))
  {
    assert s[0] == '-';
    assert s[1..] == d;
  }

  /** `str(n)` has no whitespace to strip. */
  lemma IntToStringTrimmed(n: int)
    ensures Trim(IntToString(n)) == IntToString(n)
  {
    var s := IntToString(n);
    NatToStringDigits(if n < 0 then -n else n);
    assert IsTrimmed(s);
    TrimOfTrimmed(s);
  }

  /** `int(str(n)) == n`. */
  lemma ParseIntRoundTrip(n: int)
    ensures ParseInt(IntToString(n)) == Some(n)
  {
    IntToStringTrimmed(n);
    if n < 0 {
      DigitsOfNat(-n);
      ParseSignedOfNegated(NatToString(-n), IntToString(n));
    } else {
      DigitsOfNat(n);
      ParseSignedOfDigits(NatToString(n));
    }
  }
}
