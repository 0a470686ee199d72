/** Optional values and outcomes used by every model in this project. */
module Wrappers {

  /** A value that may be absent (a Python `False`/`None` field). */
  datatype Option<T> = None | Some(value: T)

  /** The value of an operation, or the error the source raises instead. */
  datatype Result<T, E> = Ok(value: T) | Err(error: E)

  /** An operation without a value that either passes or raises `error`. */
  datatype Outcome<E> = Pass | Fail(error: E)

  /** A key of a `vals` dictionary: absent (`Keep`) or present with a value. */
  datatype Field<T> = Keep | Set(value: T)

  /** `vals[key]` if the key is present, else the current value. */
  function Update<T>(f: Field<T>, current: T): T
  {
    match f
    case Keep => current
    case Set(v) => v
  }
}

/** The string operations the reference-number and phone rules are built from. */
module Text {
  import opened Wrappers

  /** Index of the last hyphen of `s`, or -1 when it has none. */
  function LastHyphen(s: string): (k: int)
    ensures -1 <= k < |s|
    ensures k >= 0 ==> s[k] == '-'
    ensures forall j :: k < j < |s| ==> s[j] != '-'
  {
    if s == [] then -1
    else if s[|s| - 1] == '-' then |s| - 1
    else LastHyphen(s[..|s| - 1])
  }

  /** `s.split('-')[-1]`: the text after the last hyphen, or all of `s` when it has none. */
  function LastSegment(s: string): (r: string)
    ensures '-' !in r
    ensures |r| <= |s| && s[|s| - |r|..] == r
    ensures '-' in s ==> |r| < |s| && s[|s| - |r| - 1] == '-'
    ensures '-' !in s ==> r == s
  {
    s[LastHyphen(s) + 1..]
  }

  /** Splitting `p + "-" + q` keeps `q` as its last segment whenever `q` has no hyphen. */
  lemma LastSegmentOfJoin(p: string, q: string)
    requires '-' !in q
    ensures LastSegment(p + "-" + q) == q
  {
    var s := p + "-" + q;
    assert s[|p|] == '-';
    assert forall j :: |p| < j < |s| ==> s[j] == q[j - |p| - 1];
    assert LastHyphen(s) == |p|;
    assert s[|p| + 1..] == q;
  }

  /** The decimal digit for `d`. */
  function DigitChar(d: nat): char
    requires d < 10
  {
    ('0' as int + d) as char
  }

  /** The value of a decimal digit character. */
  function DigitValue(c: char): nat
    requires '0' <= c <= '9'
  {
    c as int - '0' as int
  }

  predicate IsDigits(s: string)
  {
    forall i :: 0 <= i < |s| ==> '0' <= s[i] <= '9'
  }

  /** Python's `str(n)` for a non-negative integer. */
  function NatToString(n: nat): (s: string)
    ensures |s| >= 1 && IsDigits(s)
  {
    if n < 10 then [DigitChar(n)] else NatToString(n / 10) + [DigitChar(n % 10)]
  }

  /** The number a string of decimal digits denotes (leading zeros allowed). */
  function DigitsValue(s: string): nat
    requires IsDigits(s)
  {
    if s == [] then 0 else DigitsValue(s[..|s| - 1]) * 10 + DigitValue(s[|s| - 1])
  }

  /** Reading back a rendered number gives the number. */
  lemma {:induction false} NatToStringRoundTrip(n: nat)
    ensures DigitsValue(NatToString(n)) == n
  {
    if n >= 10 {
      NatToStringRoundTrip(n / 10);
      var s := NatToString(n);
      assert s[..|s| - 1] == NatToString(n / 10);
    }
  }

  /** A leading zero does not change the value of a digit string. */
  lemma {:induction false} LeadingZero(s: string)
    requires IsDigits(s)
    ensures IsDigits("0" + s) && DigitsValue("0" + s) == DigitsValue(s)
  {
    var t := "0" + s;
    if s != [] {
      assert t[..|t| - 1] == "0" + s[..|s| - 1];
      LeadingZero(s[..|s| - 1]);
    }
  }

  /** How an f-string renders a Char field: its text, or `False` when unset. */
  function Shown(v: Option<string>): string
  {
    if v.Some? then v.value else "False"
  }

  /** Python truthiness of a Char field. */
  predicate Truthy(v: Option<string>)
  {
    v.Some? && v.value != ""
  }

  /** `v or default` for a Char value. */
  function Or(v: Option<string>, default: string): string
  {
    if Truthy(v) then v.value else default
  }

  /** A company or department record, as far as reference numbers read it: its optional code. */
  datatype Coded = Coded(code: Option<string>)

  /** `rec.code if rec and rec.code else default`. */
  function CodeOr(rec: Option<Coded>, default: string): string
  {
    if rec.Some? then Or(rec.value.code, default) else default
  }

  /** `s.startswith(p)`. */
  predicate StartsWith(s: string, p: string)
  {
    |p| <= |s| && s[..|p|] == p
  }

  /** A string that starts with `p + q` starts with `p`. */
  lemma StartsWithShorter(s: string, p: string, q: string)
    requires StartsWith(s, p + q)
    ensures StartsWith(s, p)
  {
    assert s[..|p|] == (p + q)[..|p|];
  }

  /** `s.lstrip(c)` for a single character `c`. */
  function LStrip(s: string, c: char): (r: string)
    ensures |r| <= |s| && r == s[|s| - |r|..]
    ensures r == [] || r[0] != c
    ensures forall i :: 0 <= i < |s| - |r| ==> s[i] == c
  {
    if s != [] && s[0] == c then LStrip(s[1..], c) else s
  }

  /** `s.split(' ', 1)[-1]`: the text after the first space, or all of `s` when it has none. */
  function AfterFirstSpace(s: string): (r: string)
    ensures |r| <= |s| && r == s[|s| - |r|..]
    ensures ' ' !in s ==> r == s
    ensures ' ' in s ==> |r| < |s| && s[|s| - |r| - 1] == ' ' && ' ' !in s[..|s| - |r| - 1]
  {
    if s == [] then s
    else if s[0] == ' ' then s[1..]
    else if ' ' in s[1..] then AfterFirstSpace(s[1..])
    else s
  }

  /** Splitting again finds nothing more to split. */
  lemma LastSegmentIdempotent(s: string)
    ensures LastSegment(LastSegment(s)) == LastSegment(s)
  {
  }

  /** The reference numbers of the sales and project models: `f"{prefix}-{year}-{n}"`, where `n`
      is the last `-` segment of the sequence value. */
  function Reference(prefix: string, year: nat, sequence: string): string
  {
    prefix + "-" + NatToString(year) + "-" + LastSegment(sequence)
  }

  /** A reference starts with its prefix and a hyphen, and ends with the sequence's number. */
  lemma ReferenceShape(prefix: string, year: nat, sequence: string)
    ensures LastSegment(Reference(prefix, year, sequence)) == LastSegment(sequence)
    ensures StartsWith(Reference(prefix, year, sequence), prefix + "-")
  {
    JoinShape(prefix, NatToString(year), LastSegment(sequence));
  }

  lemma JoinShape(prefix: string, middle: string, last: string)
    requires '-' !in last
    ensures LastSegment(prefix + "-" + middle + "-" + last) == last
    ensures StartsWith(prefix + "-" + middle + "-" + last, prefix + "-")
  {
    var head := prefix + "-" + middle;
    LastSegmentOfJoin(head, last);
    assert prefix + "-" + middle + "-" + last == (prefix + "-") + (middle + "-" + last);
    StartsWithConcat(prefix + "-", middle + "-" + last);
  }

  /** A string starts with any of its prefixes. */
  lemma StartsWithConcat(p: string, rest: string)
    ensures StartsWith(p + rest, p)
  {
    assert (p + rest)[..|p|] == p;
  }

  /** A reference reads only the last segment of its sequence value. */
  lemma ReferenceReadsLastSegment(prefix: string, year: nat, sequence: string)
    ensures Reference(prefix, year, LastSegment(sequence)) == Reference(prefix, year, sequence)
  {
    LastSegmentIdempotent(sequence);
  }
}
