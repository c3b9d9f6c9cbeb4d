// Plain values of the Python program: JSON-like dictionaries, the truth
// test, `str()`, `int()` on text and `str.strip()`, with the exceptions the
// core can raise. Every other module works over these.

module Wrappers {
  datatype Option<+T> = None | Some(value: T)

  datatype Result<+T, +E> = Ok(value: T) | Err(error: E)
}

module PyValues {
  import opened Wrappers

  /** An embedding: the float vector the embedding provider returns. */
  type Embedding = seq<real>

  /** A JSON / column value other than an embedding. */
  datatype Val =
    | Null
    | Bool(b: bool)
    | Int(i: int)
    | Str(s: string)
    | List(items: seq<Val>)

  /** A Python dict with string keys (an article, a verdict, a report row). */
  type Dict = map<string, Val>

  /** The exceptions that escape the core. */
  datatype Exc =
    | KeyError(key: string)
    | TypeError
    | IndexError
    | ValueError
    | AttributeError
    | ApiError
    | JsonDecodeError
    | StoreError(message: string)

  /** `d.get(k, default)` */
  function Get(d: Dict, k: string, default: Val): Val
  {
    if k in d then d[k] else default
  }

  /** Python's truth test, `bool(v)`. */
  predicate Truthy(v: Val)
  {
    match v
    case Null => false
    case Bool(b) => b
    case Int(i) => i != 0
    case Str(s) => s != ""
    case List(xs) => xs != []
  }

  /** `str.isspace()` for one character; the regular-expression class `\s`
      on text patterns uses the same set. */
  predicate IsSpace(c: char)
  {
    var n := c as int;
    (9 <= n <= 13) || (28 <= n <= 32) || n == 0x85 || n == 0xA0 || n == 0x1680
    || (0x2000 <= n <= 0x200A) || n == 0x2028 || n == 0x2029 || n == 0x202F
    || n == 0x205F || n == 0x3000
  }

  predicate IsDigit(c: char)
  {
    '0' <= c <= '9'
  }

  /** Removes leading white space: the result is the longest suffix of `s`
      that does not start with white space. */
  function TrimStart(s: string): (r: string)
    ensures |r| <= |s| && r == s[|s| - |r|..]
    ensures r == [] || !IsSpace(r[0])
    ensures forall k :: 0 <= k < |s| - |r| ==> IsSpace(s[k])
  {
    if s != [] && IsSpace(s[0]) then TrimStart(s[1..]) else s
  }

  /** Removes trailing white space: the result is the longest prefix of `s`
      that does not end with white space. */
  function TrimEnd(s: string): (r: string)
    ensures |r| <= |s| && r == s[..|r|]
    ensures r == [] || !IsSpace(r[|r| - 1])
    ensures forall k :: |r| <= k < |s| ==> IsSpace(s[k])
  {
    if s != [] && IsSpace(s[|s| - 1]) then TrimEnd(s[..|s| - 1]) else s
  }

  /** `s.strip()` */
  function Strip(s: string): string
  {
    TrimEnd(TrimStart(s))
  }

  /** A stripped text neither starts nor ends with white space, and stripping
      it again changes nothing. */
  lemma StripIsStripped(s: string)
    ensures var r := Strip(s); r == [] || (!IsSpace(r[0]) && !IsSpace(r[|r| - 1]))
    ensures Strip(Strip(s)) == Strip(s)
  {
    var t := TrimStart(s);
    var r := TrimEnd(t);
    if r != [] {
      assert r[0] == t[0];
    }
    assert TrimStart(r) == r;
  }

  /** Text without white space at either end is its own strip. */
  lemma StripOfUnpadded(s: string)
    requires s == [] || (!IsSpace(s[0]) && !IsSpace(s[|s| - 1]))
    ensures Strip(s) == s
  {
  }

  function StartsWith(s: string, p: string): bool
  {
    |p| <= |s| && s[..|p|] == p
  }

  function EndsWith(s: string, p: string): bool
  {
    |p| <= |s| && s[|s| - |p|..] == p
  }

  /** The texts `parts`, one after the other. */
  function Concat(parts: seq<string>): string
  {
    if parts == [] then "" else parts[0] + Concat(parts[1..])
  }

  lemma {:induction false} ConcatAppend(parts: seq<string>, p: string)
    ensures Concat(parts + [p]) == Concat(parts) + p
  {
    if parts != [] {
      assert (parts + [p])[1..] == parts[1..] + [p];
      ConcatAppend(parts[1..], p);
    }
  }

  lemma {:induction false} ConcatSplit(parts: seq<string>, k: nat)
    requires k <= |parts|
    ensures Concat(parts) == Concat(parts[..k]) + Concat(parts[k..])
  {
    if k > 0 {
      ConcatSplit(parts[1..], k - 1);
      assert parts[1..][..k - 1] == parts[..k][1..];
      assert parts[1..][k - 1..] == parts[k..];
    } else {
      assert parts[..0] == [] && parts[0..] == parts;
    }
  }

  /** `sep.join(parts)` */
  function Join(sep: string, parts: seq<string>): string
  {
    if parts == [] then ""
    else if |parts| == 1 then parts[0]
    else parts[0] + sep + Join(sep, parts[1..])
  }

  /** `p` occurs in `s` starting at index `i`. */
  predicate OccursAt(s: string, p: string, i: nat)
  {
    i + |p| <= |s| && s[i..i + |p|] == p
  }

  /** `p in s` for two texts. */
  predicate IsSubstring(p: string, s: string)
  {
    exists i: nat | i <= |s| :: OccursAt(s, p, i)
  }

  // ---------------------------------------------------------------------
  // str() of a value

  function DigitChar(d: nat): char
    requires d < 10
  {
    "0123456789"[d]
  }

  function ShowNat(n: nat): (r: string)
    ensures r != [] && forall k :: 0 <= k < |r| ==> IsDigit(r[k])
  {
    if n < 10 then [DigitChar(n)] else ShowNat(n / 10) + [DigitChar(n % 10)]
  }

  /** `str(i)` for an integer. */
  function ShowInt(i: int): string
  {
    if i < 0 then "-" + ShowNat(-i) else ShowNat(i)
  }

  /** `str(v)` for a scalar. */
  function ShowScalar(v: Val): string
    requires !v.Str? && !v.List?
  {
    match v
    case Null => "None"
    case Bool(b) => if b then "True" else "False"
    case Int(i) => ShowInt(i)
  }

  /** `str(v)`: a text is shown as itself, a list as its repr. */
  function Show(v: Val): string
  {
    match v
    case Str(s) => s
    case List(xs) => "[" + ReprItems(xs) + "]"
    case _ => ShowScalar(v)
  }

  /** `repr(v)`; texts are quoted with single quotes and not escaped. */
  function Repr(v: Val): string
  {
    match v
    case Str(s) => "'" + s + "'"
    case List(xs) => "[" + ReprItems(xs) + "]"
    case _ => ShowScalar(v)
  }

  function ReprItems(xs: seq<Val>): string
  {
    if xs == [] then ""
    else if |xs| == 1 then Repr(xs[0])
    else Repr(xs[0]) + ", " + ReprItems(xs[1..])
  }

  // ---------------------------------------------------------------------
  // int() of a text

  /** A decimal numeral as `int()` accepts it: digits, with single
      underscores allowed between two digits. */
  predicate IsNumeral(t: string)
  {
    && |t| > 0
    && IsDigit(t[0])
    && IsDigit(t[|t| - 1])
    && (forall k :: 0 <= k < |t| ==> IsDigit(t[k]) || t[k] == '_')
    && (forall k :: 0 < k < |t| ==> !DoubleUnderscoreAt(t, k))
  }

  predicate DoubleUnderscoreAt(t: string, k: nat)
    requires 0 < k < |t|
  {
    t[k - 1] == '_' && t[k] == '_'
  }

  /** The value of the digits of `t`, ignoring underscores. */
  function NumeralValue(t: string): nat
  {
    if t == [] then 0
    else if !IsDigit(t[|t| - 1]) then NumeralValue(t[..|t| - 1])
    else 10 * NumeralValue(t[..|t| - 1]) + (t[|t| - 1] as int - '0' as int)
  }

  /** `int(s)`: None where Python raises ValueError. Surrounding white space
      and one leading sign are accepted. */
  function ParseInt(s: string): Option<int>
  {
    var t := Strip(s);
    if |t| > 0 && (t[0] == '+' || t[0] == '-') then
      if IsNumeral(t[1..]) then
        var n: int := NumeralValue(t[1..]);
        Some(if t[0] == '-' then -n else n)
      else None
    else if IsNumeral(t) then Some(NumeralValue(t))
    else None
  }

  lemma {:induction false} NumeralOfShowNat(n: nat)
    ensures IsNumeral(ShowNat(n)) && NumeralValue(ShowNat(n)) == n
  {
    var r := ShowNat(n);
    if n >= 10 {
      NumeralOfShowNat(n / 10);
      var p := ShowNat(n / 10);
      assert r == p + [DigitChar(n % 10)];
      assert r[..|r| - 1] == p;
    }
    assert forall k :: 0 < k < |r| ==> !DoubleUnderscoreAt(r, k);
  }

  /** `int(str(i)) == i`: the decimal rendering reads back as the same
      integer. */
  lemma ParseUnsignedNumeral(t: string)
    requires IsNumeral(t)
    ensures ParseInt(t) == Some(NumeralValue(t) as int)
  {
    assert !IsSpace(t[0]) && !IsSpace(t[|t| - 1]);
    StripOfUnpadded(t);
    assert t[0] != '+' && t[0] != '-';
  }

  lemma ParseNegativeNumeral(t: string)
    requires IsNumeral(t)
    ensures ParseInt("-" + t) == Some(-(NumeralValue(t) as int))
  {
    var u := "-" + t;
    assert u[0] == '-' && u[1..] == t && u[|u| - 1] == t[|t| - 1];
    StripOfUnpadded(u);
  }

  /** `int(str(i)) == i`: the decimal rendering reads back as the same
      integer. */
  lemma ParseShowInt(i: int)
    ensures ParseInt(ShowInt(i)) == Some(i)
  {
    if i < 0 {
      var d := ShowNat(-i);
      NumeralOfShowNat(-i);
      ParseNegativeNumeral(d);
      assert ShowInt(i) == "-" + d;
    } else {
      var d := ShowNat(i);
      NumeralOfShowNat(i);
      ParseUnsignedNumeral(d);
      assert ShowInt(i) == d;
    }
  }

  /** `a` is a subsequence of `b`. */
  predicate IsSubseq(a: seq<Dict>, b: seq<Dict>)
    decreases |b|
  {
    a == [] || (b != [] && ((a[|a| - 1] == b[|b| - 1] && IsSubseq(a[..|a| - 1], b[..|b| - 1])) || IsSubseq(a, b[..|b| - 1])))
  }
}
