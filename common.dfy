/** Values and string operations shared by the whole model: optional values, the
    three-way JavaScript value of a request field, the JavaScript `||` / `??`
    coercions, string order and JavaScript's `parseInt`. */
module Common {

  datatype Option<T> = None | Some(value: T)

  /** A value or the message of the error the source would throw. */
  datatype Result<T> = Ok(value: T) | Err(message: string)

  /** A field read from a JSON body or an options object: the key is absent
      (`undefined`), the value is JSON `null`, or it is a value. */
  datatype Js<T> = Undefined | Null | Val(v: T)

  /** JavaScript `x || null` on a string field: `undefined`, `null` and the
      falsy empty string all become `null`. */
  function OrNull(x: Js<string>): (r: Option<string>)
    ensures r != Some("")
    ensures r.Some? <==> x.Val? && x.v != ""
    ensures r.Some? ==> x == Val(r.value)
  {
    match x
    case Val(s) => if s == "" then None else Some(s)
    case _ => None
  }

  /** JavaScript `x ?? null`: only `undefined` and `null` become `null`, so a
      numeric 0 is kept. */
  function Coalesce<T>(x: Js<T>): (r: Option<T>)
    ensures r.Some? <==> x.Val?
    ensures x.Val? ==> r == Some(x.v)
  {
    match x
    case Val(v) => Some(v)
    case _ => None
  }

  /** JavaScript truthiness of an optional string: present and not "". */
  predicate Given(o: Option<string>) {
    o.Some? && o.value != ""
  }

  /** `process.env.X || fallback`: an unset or empty variable gives the fallback. */
  function OrDefault(v: Option<string>, fallback: string): (r: string)
    ensures Given(v) ==> r == v.value
    ensures !Given(v) ==> r == fallback
  {
    if v.Some? && v.value != "" then v.value else fallback
  }

  /** `searchParams.get(k) || undefined`: a query parameter that is missing or
      empty is absent. (A query string is modelled by the first value of each key.) */
  function Param(query: map<string, string>, k: string): (r: Option<string>)
    ensures r.Some? <==> k in query && query[k] != ""
    ensures r.Some? ==> r.value == query[k]
  {
    if k in query && query[k] != "" then Some(query[k]) else None
  }

  // ----- string order -----

  /** Strict lexicographic order by code point: SQLite's BINARY collation on
      UTF-8 text, which orders exactly as code points do. */
  predicate StrLess(a: string, b: string)
    decreases |a|
  {
    if a == [] then b != []
    else if b == [] then false
    else if a[0] == b[0] then StrLess(a[1..], b[1..])
    else a[0] < b[0]
  }

  predicate StrLessEq(a: string, b: string) {
    a == b || StrLess(a, b)
  }

  lemma {:induction false} StrLessIrreflexive(a: string)
    ensures !StrLess(a, a)
    decreases |a|
  {
    if a != [] { StrLessIrreflexive(a[1..]); }
  }

  lemma {:induction false} StrLessTransitive(a: string, b: string, c: string)
    requires StrLess(a, b) && StrLess(b, c)
    ensures StrLess(a, c)
    decreases |a|
  {
    if a != [] && b != [] && c != [] && a[0] == b[0] && b[0] == c[0] {
      StrLessTransitive(a[1..], b[1..], c[1..]);
    }
  }

  lemma {:induction false} StrLessTotal(a: string, b: string)
    ensures a == b || StrLess(a, b) || StrLess(b, a)
    decreases |a|
  {
    if a != [] && b != [] && a[0] == b[0] {
      StrLessTotal(a[1..], b[1..]);
      if a[1..] == b[1..] {
        assert a == [a[0]] + a[1..] && b == [b[0]] + b[1..];
      }
    }
  }

  lemma {:induction false} StrLessAsymmetric(a: string, b: string)
    requires StrLess(a, b)
    ensures !StrLess(b, a)
  {
    if StrLess(b, a) {
      StrLessTransitive(a, b, a);
      StrLessIrreflexive(a);
    }
  }

  // ----- JavaScript parseInt -----

  /** JavaScript's StrWhiteSpaceChar: WhiteSpace and LineTerminator code points,
      as `String.prototype.trim` and `parseInt` skip them. */
  predicate IsJsSpace(c: char) {
    c == '\t' || c == '\n' || c == '\U{000B}' || c == '\U{000C}' || c == '\r' || c == ' '
    || c == '\U{00A0}' || c == '\U{1680}' || ('\U{2000}' <= c <= '\U{200A}')
    || c == '\U{2028}' || c == '\U{2029}' || c == '\U{202F}' || c == '\U{205F}'
    || c == '\U{3000}' || c == '\U{FEFF}'
  }

  predicate IsDigit(c: char) {
    '0' <= c <= '9'
  }

  function DigitValue(c: char): (d: nat)
    requires IsDigit(c)
    ensures d < 10
  {
    (c as int) - ('0' as int)
  }

  function DigitChar(d: nat): (c: char)
    requires d < 10
    ensures IsDigit(c) && DigitValue(c) == d
  {
    ((d + '0' as int) as char)
  }

  /** The longest prefix of `s` made of decimal digits. */
  function DigitPrefix(s: string): (r: string)
    ensures r <= s
    ensures forall i | 0 <= i < |r| :: IsDigit(r[i])
    ensures |r| < |s| ==> !IsDigit(s[|r|])
  {
    if s != [] && IsDigit(s[0]) then [s[0]] + DigitPrefix(s[1..]) else []
  }

  /** The value of a string of decimal digits, most significant first. */
  function DigitsValue(ds: string): nat
    requires forall i | 0 <= i < |ds| :: IsDigit(ds[i])
  {
    if ds == [] then 0 else DigitsValue(ds[..|ds| - 1]) * 10 + DigitValue(ds[|ds| - 1])
  }

  /** White space removed from the start: a suffix that does not start
      with white space. */
  function TrimStart(s: string): (r: string)
    ensures r == [] || !IsJsSpace(r[0])
    ensures |r| <= |s| && r == s[|s| - |r|..]
  {
    if s != [] && IsJsSpace(s[0]) then TrimStart(s[1..]) else s
  }

  /** What `TrimStart` drops is all white space. */
  lemma {:induction false} TrimStartDrops(s: string)
    ensures forall k | 0 <= k < |s| - |TrimStart(s)| :: IsJsSpace(s[k])
  {
    if s != [] && IsJsSpace(s[0]) {
      TrimStartDrops(s[1..]);
      forall k | 1 <= k < |s| - |TrimStart(s)| ensures IsJsSpace(s[k]) {
        assert s[k] == s[1..][k - 1];
      }
    }
  }

  /** White space removed from the end: a prefix that does not end with
      white space. */
  function TrimEnd(s: string): (r: string)
    ensures r == [] || !IsJsSpace(r[|r| - 1])
    ensures r <= s
  {
    if s != [] && IsJsSpace(s[|s| - 1]) then TrimEnd(s[..|s| - 1]) else s
  }

  /** What `TrimEnd` drops is all white space. */
  lemma {:induction false} TrimEndDrops(s: string)
    ensures forall k | |TrimEnd(s)| <= k < |s| :: IsJsSpace(s[k])
  {
    if s != [] && IsJsSpace(s[|s| - 1]) {
      TrimEndDrops(s[..|s| - 1]);
      forall k | |TrimEnd(s)| <= k < |s| - 1 ensures IsJsSpace(s[k]) {
        assert s[k] == s[..|s| - 1][k];
      }
    }
  }

  /** Updating one key of a merged map updates the map merged last. */
  lemma MergeUpdate<K, V>(base: map<K, V>, m: map<K, V>, k: K, v: V)
    ensures (base + m)[k := v] == base + m[k := v]
  {
  }

  /** Values numbered from `start`: the k-th of `xs` becomes `f(xs[k], start + k)`
      under key `start + k`. */
  function Numbered<T, V>(xs: seq<T>, start: int, f: (T, int) -> V): map<int, V> {
    if xs == [] then map[]
    else Numbered(xs[..|xs| - 1], start, f)[start + |xs| - 1 := f(xs[|xs| - 1], start + |xs| - 1)]
  }

  /** The keys are `start` up to `start + |xs|`, each holding its own value. */
  lemma {:induction false} NumberedShape<T, V>(xs: seq<T>, start: int, f: (T, int) -> V)
    ensures forall id :: id in Numbered(xs, start, f) <==> start <= id < start + |xs|
    ensures forall k | 0 <= k < |xs| :: Numbered(xs, start, f)[start + k] == f(xs[k], start + k)
  {
    if xs != [] {
      var init := xs[..|xs| - 1];
      NumberedShape(init, start, f);
      var m := Numbered(xs, start, f);
      assert m == Numbered(init, start, f)[start + |xs| - 1 := f(xs[|xs| - 1], start + |xs| - 1)];
      assert forall id :: id in m <==> start <= id < start + |xs|;
      forall k | 0 <= k < |xs| ensures m[start + k] == f(xs[k], start + k) {
        if k < |xs| - 1 {
          assert init[k] == xs[k];
        }
      }
    }
  }

  /** One more value goes under the next key, above whatever map it is merged
      into. */
  lemma NumberedStep<T, V>(base: map<int, V>, xs: seq<T>, x: T, start: int, f: (T, int) -> V)
    ensures (base + Numbered(xs, start, f))[start + |xs| := f(x, start + |xs|)] == base + Numbered(xs + [x], start, f)
  {
    var t := xs + [x];
    assert t[..|t| - 1] == xs && t[|t| - 1] == x;
    MergeUpdate(base, Numbered(xs, start, f), start + |xs|, f(x, start + |xs|));
  }

  /** Neither end is white space. */
  predicate Trimmed(s: string) {
    s == [] || (!IsJsSpace(s[0]) && !IsJsSpace(s[|s| - 1]))
  }

  /** `String.prototype.trim`: white space removed from both ends. */
  function Trim(s: string): (r: string)
    ensures Trimmed(r)
  {
    var t := TrimStart(s);
    var r := TrimEnd(t);
    assert r != [] ==> r[0] == t[0];
    r
  }

  /** Trimming cuts `s` into white space, the result, and white space. */
  lemma TrimShape(s: string) returns (i: nat)
    ensures i + |Trim(s)| <= |s| && Trim(s) == s[i..i + |Trim(s)|]
    ensures forall k | 0 <= k < i :: IsJsSpace(s[k])
    ensures forall k | i + |Trim(s)| <= k < |s| :: IsJsSpace(s[k])
  {
    var t := TrimStart(s);
    i := |s| - |t|;
    var r := Trim(s);
    TrimStartDrops(s);
    TrimEndDrops(t);
    assert r == t[..|r|];
    forall k | i + |r| <= k < |s| ensures IsJsSpace(s[k]) {
      assert s[k] == t[k - i];
    }
  }

  /** Trimming only removes characters. */
  lemma TrimKeeps(s: string)
    ensures forall c | c in Trim(s) :: c in s
  {
    var t := TrimStart(s);
    assert forall c | c in Trim(s) :: c in t;
  }

  /** Trimming a trimmed string changes nothing. */
  lemma TrimTrimmed(s: string)
    requires Trimmed(s)
    ensures Trim(s) == s
  {
  }

  /** JavaScript `parseInt(s)` for decimal text: skip leading white space, read
      an optional sign and the longest run of digits after it; no digit at all
      gives NaN, here None. */
  function ParseInt(s: string): (r: Option<int>)
    ensures TrimStart(s) == [] ==> r.None?
    ensures TrimStart(s) != [] && IsDigit(TrimStart(s)[0]) ==> r.Some? && r.value >= 0
    ensures TrimStart(s) != [] && !IsDigit(TrimStart(s)[0]) && TrimStart(s)[0] != '-' && TrimStart(s)[0] != '+' ==> r.None?
    ensures r.Some? && r.value < 0 ==> TrimStart(s)[0] == '-'
  {
    var t := TrimStart(s);
    var neg := t != [] && t[0] == '-';
    var body := if t != [] && (t[0] == '-' || t[0] == '+') then t[1..] else t;
    var ds := DigitPrefix(body);
    if ds == [] then None
    else if neg then Some(-(DigitsValue(ds) as int))
    else Some(DigitsValue(ds))
  }

  /** A number is read only where the text holds a digit. */
  lemma ParseIntNeedsDigit(s: string)
    ensures ParseInt(s).Some? ==> exists k | 0 <= k < |s| :: IsDigit(s[k])
  {
    var t := TrimStart(s);
    var body := if t != [] && (t[0] == '-' || t[0] == '+') then t[1..] else t;
    var ds := DigitPrefix(body);
    if ds != [] {
      assert s[|s| - |body|] == body[0] == ds[0];
    }
  }

  /** The decimal rendering of a natural number, as `String(n)` gives it. */
  function Decimal(n: nat): (r: string)
    ensures r != [] && forall i | 0 <= i < |r| :: IsDigit(r[i])
  {
    if n < 10 then [DigitChar(n)] else Decimal(n / 10) + [DigitChar(n % 10)]
  }

  lemma {:induction false} DecimalValue(n: nat)
    ensures DigitsValue(Decimal(n)) == n
  {
    if n >= 10 {
      var r := Decimal(n);
      assert r[..|r| - 1] == Decimal(n / 10);
      DecimalValue(n / 10);
    }
  }

  lemma {:induction false} DigitPrefixOfDigits(s: string)
    requires forall i | 0 <= i < |s| :: IsDigit(s[i])
    ensures DigitPrefix(s) == s
  {
    if s != [] { DigitPrefixOfDigits(s[1..]); }
  }

  /** parseInt reads back the decimal rendering of every natural number, and
      ignores whatever follows the digit run. */
  lemma ParseIntIgnoresSuffix(n: nat, rest: string)
    requires rest == [] || !IsDigit(rest[0])
    ensures ParseInt(Decimal(n) + rest) == Some(n)
  {
    ParseIntDigits(Decimal(n), rest);
    DecimalValue(n);
  }

  /** A digit run followed by a non-digit parses as the run's value. */
  lemma ParseIntDigits(ds: string, rest: string)
    requires ds != [] && forall i | 0 <= i < |ds| :: IsDigit(ds[i])
    requires rest == [] || !IsDigit(rest[0])
    ensures ParseInt(ds + rest) == Some(DigitsValue(ds))
  {
    var s := ds + rest;
    assert s[0] == ds[0];
    TrimStartNoSpace(s);
    DigitPrefixAppend(ds, rest);
    ParseIntPlain(s);
  }

  lemma ParseIntPlain(s: string)
    requires s != [] && IsDigit(s[0])
    ensures ParseInt(s) == Some(DigitsValue(DigitPrefix(s)))
  {
    TrimStartNoSpace(s);
  }

  lemma TrimStartNoSpace(s: string)
    requires s == [] || !IsJsSpace(s[0])
    ensures TrimStart(s) == s
  {
  }

  lemma {:induction false} DigitPrefixAppend(ds: string, rest: string)
    requires forall i | 0 <= i < |ds| :: IsDigit(ds[i])
    requires rest == [] || !IsDigit(rest[0])
    ensures DigitPrefix(ds + rest) == ds
  {
    if ds == [] {
      assert ds + rest == rest;
    } else {
      assert (ds + rest)[1..] == ds[1..] + rest;
      DigitPrefixAppend(ds[1..], rest);
    }
  }
}
