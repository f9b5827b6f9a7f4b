/** The few pieces of Go's standard library the catalogue pipeline relies on
    (strconv.ParseUint with base 10 and bit size 64, strconv.ParseBool,
    strconv.FormatUint, strings.TrimSpace, strings.Split with a one-character
    separator), stated over Dafny strings. A Dafny `char` is a Unicode scalar
    value, so a string is a sequence of runes and utf8.RuneCountInString is
    its length. */
module GoStd {

  /** Go's uint64 ceiling, 2^64 - 1. */
  const MaxUint64: nat := 0xFFFF_FFFF_FFFF_FFFF

  datatype Option<+T> = None | Some(value: T)

  datatype Result<+T, +E> = Ok(value: T) | Err(error: E)

  /** The strconv function that produced a *strconv.NumError. */
  datatype StrconvFunc = FnParseUint | FnParseBool

  /** strconv.ErrSyntax and strconv.ErrRange. */
  datatype NumErrorKind = ErrSyntax | ErrRange

  /** strconv.NumError: the function, its input and the cause; the text of
      Error() is derived from these three and is not modelled. */
  datatype NumError = NumError(fn: StrconvFunc, num: string, err: NumErrorKind)

  // ---------------------------------------------------------------------
  // Decimal digits

  predicate IsDigit(c: char) { '0' <= c <= '9' }

  predicate AllDigits(s: string) { forall k :: 0 <= k < |s| ==> IsDigit(s[k]) }

  function DigitValue(c: char): (d: nat)
    requires IsDigit(c)
    ensures d < 10
  {
    c as int - '0' as int
  }

  function DigitChar(d: nat): (c: char)
    requires d < 10
    ensures IsDigit(c) && DigitValue(c) == d
  {
    ('0' as int + d) as char
  }

  /** The number a string of decimal digits denotes, read left to right. */
  function DecimalValue(s: string): nat
    requires AllDigits(s)
  {
    if s == [] then 0
    else DecimalValue(s[..|s| - 1]) * 10 + DigitValue(s[|s| - 1])
  }

  /** A longer digit string never denotes a smaller number than its prefix. */
  lemma {:induction false} DecimalValuePrefix(s: string, i: nat)
    requires AllDigits(s) && i <= |s|
    ensures DecimalValue(s[..i]) <= DecimalValue(s)
    decreases |s| - i
  {
    if i < |s| {
      assert s[..i + 1][..i] == s[..i];
      DecimalValuePrefix(s, i + 1);
    } else {
      assert s[..i] == s;
    }
  }

  // ---------------------------------------------------------------------
  // strconv.ParseUint(s, 10, 64)

  /** Some digit prefix of s longer than i characters denotes a number above
      2^64 - 1. */
  predicate PrefixOverflows(s: string, i: nat)
  {
    exists k :: i < k <= |s| && AllDigits(s[..k]) && DecimalValue(s[..k]) > MaxUint64
  }

  /** A non-digit at position i ends every digit prefix before i + 1. */
  lemma NoDigitPrefixPast(s: string, i: nat)
    requires i < |s| && !IsDigit(s[i])
    ensures !PrefixOverflows(s, i)
  {
    forall k | i < k <= |s| ensures !AllDigits(s[..k]) {
      assert s[..k][i] == s[i];
    }
  }

  /** One step of strconv.ParseUint's left-to-right scan from position i with
      the value `acc` of the digits before it: a non-digit is a syntax error,
      an accumulated value above 2^64 - 1 is a range error, whichever comes
      first. */
  function ScanUint(s: string, i: nat, acc: nat): (r: Result<nat, NumErrorKind>)
    requires i <= |s| && AllDigits(s[..i]) && acc == DecimalValue(s[..i])
    requires acc <= MaxUint64
    ensures r.Ok? <==> AllDigits(s) && DecimalValue(s) <= MaxUint64
    ensures r.Ok? ==> AllDigits(s) && r.value == DecimalValue(s)
    ensures r.Err? ==> (r.error == ErrRange <==> PrefixOverflows(s, i))
    decreases |s| - i
  {
    if i == |s| then
      assert s[..i] == s;
      Ok(acc)
    else if !IsDigit(s[i]) then
      NoDigitPrefixPast(s, i);
      Err(ErrSyntax)
    else
      var next := acc * 10 + DigitValue(s[i]);
      assert s[..i + 1][..i] == s[..i];
      assert AllDigits(s[..i + 1]);
      assert next == DecimalValue(s[..i + 1]);
      if next > MaxUint64 then
        (if AllDigits(s) then DecimalValuePrefix(s, i + 1); Err(ErrRange) else Err(ErrRange))
      else
        ScanUint(s, i + 1, next)
  }

  /** strconv.ParseUint(s, 10, 64): a non-empty string of ASCII digits (no
      sign, no underscore) whose value fits in 64 bits. An error is a range
      error exactly when a digit prefix already exceeds 2^64 - 1, and a
      syntax error otherwise (the empty string, or a non-digit met first). */
  function ParseUint(s: string): (r: Result<nat, NumError>)
    ensures r.Ok? <==> s != [] && AllDigits(s) && DecimalValue(s) <= MaxUint64
    ensures r.Ok? ==> AllDigits(s) && r.value == DecimalValue(s) && r.value <= MaxUint64
    ensures r.Err? ==> r.error.fn == FnParseUint && r.error.num == s
    ensures r.Err? ==> (r.error.err == ErrRange <==> PrefixOverflows(s, 0))
  {
    if s == [] then Err(NumError(FnParseUint, s, ErrSyntax))
    else
      assert s[..0] == [];
      match ScanUint(s, 0, 0)
      case Ok(n) => Ok(n)
      case Err(kind) => Err(NumError(FnParseUint, s, kind))
  }

  /** The number ParseUint returns beside its result: 0 after a syntax error
      and 2^64 - 1 after a range error. */
  function UintValue(r: Result<nat, NumError>): (n: nat)
    ensures r.Ok? ==> n == r.value
  {
    match r
    case Ok(v) => v
    case Err(e) => if e.err == ErrRange then MaxUint64 else 0
  }

  /** strconv.FormatUint(n, 10): the shortest decimal spelling of n. */
  function FormatUint(n: nat): (s: string)
    ensures s != [] && AllDigits(s)
    ensures |s| > 1 ==> s[0] != '0'
    decreases n
  {
    if n < 10 then [DigitChar(n)] else FormatUint(n / 10) + [DigitChar(n % 10)]
  }

  lemma {:induction false} FormatUintValue(n: nat)
    ensures DecimalValue(FormatUint(n)) == n
    decreases n
  {
    if n >= 10 {
      var s := FormatUint(n);
      assert s[..|s| - 1] == FormatUint(n / 10);
      FormatUintValue(n / 10);
    }
  }

  /** Parsing what FormatUint prints gives the number back. */
  lemma ParseFormatUint(n: nat)
    requires n <= MaxUint64
    ensures ParseUint(FormatUint(n)) == Ok(n)
  {
    FormatUintValue(n);
  }

  // ---------------------------------------------------------------------
  // strconv.ParseBool

  /** The literals strconv.ParseBool accepts for true and for false. */
  const TrueLiterals: set<string> := {"1", "t", "T", "TRUE", "true", "True"}
  const FalseLiterals: set<string> := {"0", "f", "F", "FALSE", "false", "False"}

  function ParseBool(s: string): (r: Result<bool, NumError>)
    ensures r == Ok(true) <==> s in TrueLiterals
    ensures r == Ok(false) <==> s in FalseLiterals
    ensures r.Err? <==> s !in TrueLiterals + FalseLiterals
    ensures r.Err? ==> r.error == NumError(FnParseBool, s, ErrSyntax)
  {
    if s in TrueLiterals then Ok(true)
    else if s in FalseLiterals then Ok(false)
    else Err(NumError(FnParseBool, s, ErrSyntax))
  }

  /** The boolean ParseBool returns beside its result: false after an error. */
  function BoolValue(r: Result<bool, NumError>): (b: bool)
    ensures r.Ok? ==> b == r.value
  {
    r.Ok? && r.value
  }

  // ---------------------------------------------------------------------
  // strings.TrimSpace

  /** unicode.IsSpace: tab, line feed, vertical tab, form feed, carriage
      return, space, U+0085, U+00A0 and the other code points with the
      Unicode White_Space property. */
  predicate IsSpace(c: char)
  {
    || ('\t' <= c <= '\r') || c == ' ' || c == '\U{0085}' || c == '\U{00A0}' || c == '\U{1680}'
    || ('\U{2000}' <= c <= '\U{200A}') || c == '\U{2028}' || c == '\U{2029}' || c == '\U{202F}'
    || c == '\U{205F}' || c == '\U{3000}'
  }

  /** s without its leading white space. */
  function TrimLeft(s: string): (r: string)
    ensures |r| <= |s|
  {
    if s != [] && IsSpace(s[0]) then TrimLeft(s[1..]) else s
  }

  /** TrimLeft drops a prefix of white space and stops at a non-space. */
  lemma {:induction false} TrimLeftSuffix(s: string)
    ensures var r := TrimLeft(s);
            && r == s[|s| - |r|..]
            && (forall k :: 0 <= k < |s| - |r| ==> IsSpace(s[k]))
            && (r == [] || !IsSpace(r[0]))
  {
    if s != [] && IsSpace(s[0]) {
      TrimLeftSuffix(s[1..]);
    }
  }

  /** s without its trailing white space. */
  function TrimRight(s: string): (r: string)
    ensures |r| <= |s|
  {
    if s != [] && IsSpace(s[|s| - 1]) then TrimRight(s[..|s| - 1]) else s
  }

  /** TrimRight drops a suffix of white space and stops at a non-space. */
  lemma {:induction false} TrimRightPrefix(s: string)
    ensures var r := TrimRight(s);
            && r == s[..|r|]
            && (forall k :: |r| <= k < |s| ==> IsSpace(s[k]))
            && (r == [] || !IsSpace(r[|r| - 1]))
  {
    if s != [] && IsSpace(s[|s| - 1]) {
      TrimRightPrefix(s[..|s| - 1]);
    }
  }

  /** strings.TrimSpace: s without its leading and trailing white space. */
  function TrimSpace(s: string): string
  {
    TrimRight(TrimLeft(s))
  }

  /** r is the slice of s starting at i, everything of s around it is white
      space, and r neither starts nor ends with white space. */
  predicate TrimmedSlice(s: string, r: string, i: nat)
  {
    && i <= |s| - |r| && r == s[i..i + |r|]
    && (forall k :: 0 <= k < i ==> IsSpace(s[k]))
    && (forall k :: i + |r| <= k < |s| ==> IsSpace(s[k]))
    && (r == [] || (!IsSpace(r[0]) && !IsSpace(r[|r| - 1])))
  }

  /** TrimSpace cuts out the slice of s that lies between white space only,
      and that slice neither starts nor ends with white space. */
  lemma TrimSpaceSlice(s: string)
    ensures TrimmedSlice(s, TrimSpace(s), |s| - |TrimLeft(s)|)
  {
    var l := TrimLeft(s);
    var r := TrimRight(l);
    var i := |s| - |l|;
    TrimLeftSuffix(s);
    TrimRightPrefix(l);
    TrailingSpace(s, l, r, i);
    if r != [] {
      assert r[0] == l[0];
    }
    assert TrimmedSlice(s, r, i);
  }

  lemma TrailingSpace(s: string, l: string, r: string, i: nat)
    requires i <= |s| && l == s[i..] && |r| <= |l| && r == l[..|r|]
    requires forall k :: |r| <= k < |l| ==> IsSpace(l[k])
    ensures r == s[i..i + |r|]
    ensures forall k :: i + |r| <= k < |s| ==> IsSpace(s[k])
  {
    forall k | i + |r| <= k < |s| ensures IsSpace(s[k]) {
      assert s[k] == l[k - i];
    }
  }

  /** TrimSpace yields the empty string exactly for an all-white-space input. */
  lemma TrimSpaceEmpty(s: string)
    ensures TrimSpace(s) == [] <==> forall k :: 0 <= k < |s| ==> IsSpace(s[k])
  {
    TrimSpaceSlice(s);
    var r, i := TrimSpace(s), |s| - |TrimLeft(s)|;
    assert TrimmedSlice(s, r, i);
    if r != [] {
      assert r[0] == s[i] && !IsSpace(s[i]);
    }
  }

  /** Trimming twice is trimming once. */
  lemma TrimSpaceIdempotent(s: string)
    ensures TrimSpace(TrimSpace(s)) == TrimSpace(s)
  {
    TrimSpaceSlice(s);
    var r := TrimSpace(s);
    assert TrimmedSlice(s, r, |s| - |TrimLeft(s)|);
    assert TrimLeft(r) == r;
    assert TrimRight(r) == r;
  }

  // ---------------------------------------------------------------------
  // strings.Split(s, sep) and strings.Join(parts, sep), one-character sep

  function Split(s: string, sep: char): (parts: seq<string>)
    ensures |parts| >= 1
    ensures forall k :: 0 <= k < |parts| ==> sep !in parts[k]
  {
    if s == [] then [[]]
    else
      var rest := Split(s[1..], sep);
      if s[0] == sep then [[]] + rest
      else [[s[0]] + rest[0]] + rest[1..]
  }

  function Join(parts: seq<string>, sep: char): string
    requires |parts| >= 1
  {
    if |parts| == 1 then parts[0] else parts[0] + [sep] + Join(parts[1..], sep)
  }

  lemma {:induction false} JoinConsHead(c: char, parts: seq<string>, sep: char)
    requires |parts| >= 1
    ensures Join([[c] + parts[0]] + parts[1..], sep) == [c] + Join(parts, sep)
  {
    var q := [[c] + parts[0]] + parts[1..];
    if |parts| > 1 {
      assert q[1..] == parts[1..];
    }
  }

  /** Joining what Split produced restores the string. */
  lemma {:induction false} JoinSplit(s: string, sep: char)
    ensures Join(Split(s, sep), sep) == s
  {
    if s != [] {
      var rest := Split(s[1..], sep);
      JoinSplit(s[1..], sep);
      if s[0] == sep {
        assert ([[]] + rest)[1..] == rest;
        assert s == [s[0]] + s[1..];
      } else {
        JoinConsHead(s[0], rest, sep);
        assert s == [s[0]] + s[1..];
      }
    }
  }

  /** Splitting a join of separator-free parts gives the parts back. */
  lemma {:induction false} SplitJoin(parts: seq<string>, sep: char)
    requires |parts| >= 1
    requires forall k :: 0 <= k < |parts| ==> sep !in parts[k]
    ensures Split(Join(parts, sep), sep) == parts
    decreases |Join(parts, sep)|, |parts|
  {
    var p := parts[0];
    if p == [] {
      if |parts| > 1 {
        var j := Join(parts[1..], sep);
        assert Join(parts, sep) == [sep] + j;
        assert ([sep] + j)[1..] == j;
        SplitJoin(parts[1..], sep);
        assert parts == [[]] + parts[1..];
      }
    } else {
      var j := Join(parts, sep);
      var tail := [p[1..]] + parts[1..];
      assert tail[0] == p[1..] && tail[1..] == parts[1..];
      assert forall k :: 0 <= k < |tail| ==> sep !in tail[k] by {
        forall k | 0 <= k < |tail| ensures sep !in tail[k] {
          if k == 0 {
            assert forall c :: c in p[1..] ==> c in p;
          } else {
            assert tail[k] == parts[k];
          }
        }
      }
      assert Join(tail, sep) == j[1..] by {
        if |parts| == 1 {
        } else {
          assert j == p + [sep] + Join(parts[1..], sep);
          assert Join(tail, sep) == p[1..] + [sep] + Join(parts[1..], sep);
        }
      }
      SplitJoin(tail, sep);
      assert j[0] == p[0] && p[0] != sep;
      assert [[p[0]] + tail[0]] + tail[1..] == parts by {
        assert [p[0]] + p[1..] == p;
      }
    }
  }
}
