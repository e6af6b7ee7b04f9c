/** Localisation documents as the exporter reads them from the store:
    ordered key/value objects whose values are strings, numbers, booleans,
    null or the store's object identifiers. */
module Documents {
  import opened Wrappers

  /** The integers a JavaScript number prints in plain decimal: from 10^21
      on, `${n}` switches to exponent notation (`1e+21`). */
  type JsInteger = n: int | -1_000_000_000_000_000_000_000 < n < 1_000_000_000_000_000_000_000

  datatype Value =
    | Str(s: string)
    | Num(n: JsInteger)
    | Bool(b: bool)
    | Null
    | ObjectId(hex: string)

  /** JavaScript truthiness: `!v` is false exactly for these values. */
  predicate Truthy(v: Value) {
    match v
    case Str(s) => s != ""
    case Num(n) => n != 0
    case Bool(b) => b
    case Null => false
    case ObjectId(_) => true
  }

  /** One own property of an object, in enumeration order. */
  datatype Field = Field(key: string, value: Value)

  predicate DistinctKeys(fs: seq<Field>) {
    forall i, j :: 0 <= i < j < |fs| ==> fs[i].key != fs[j].key
  }

  /** A JavaScript object: its properties in `Object.keys` order, no key twice. */
  type Document = fs: seq<Field> | DistinctKeys(fs) witness []

  predicate HasKey(fs: seq<Field>, k: string) {
    exists i :: 0 <= i < |fs| && fs[i].key == k
  }

  /** `obj[k]`: the value of the first property named `k`, None for `undefined`. */
  function Get(fs: seq<Field>, k: string): (r: Option<Value>)
    ensures r.Some? <==> HasKey(fs, k)
    ensures r.Some? ==> exists i :: 0 <= i < |fs| && fs[i] == Field(k, r.value)
  {
    if fs == [] then None
    else if fs[0].key == k then Some(fs[0].value)
    else
      assert HasKey(fs, k) <==> HasKey(fs[1..], k) by {
        if HasKey(fs, k) {
          var i :| 0 <= i < |fs| && fs[i].key == k;
          assert fs[1..][i - 1].key == k;
        }
        if HasKey(fs[1..], k) {
          var i :| 0 <= i < |fs[1..]| && fs[1..][i].key == k;
          assert fs[i + 1].key == k;
        }
      }
      var r := Get(fs[1..], k);
      assert r.Some? ==> exists i :: 0 <= i < |fs| && fs[i] == Field(k, r.value) by {
        if r.Some? {
          var i :| 0 <= i < |fs[1..]| && fs[1..][i] == Field(k, r.value);
          assert fs[i + 1] == Field(k, r.value);
        }
      }
      r
  }

  /** In a document the value at a key is the one stored with it. */
  lemma {:induction false} GetAt(d: Document, i: nat)
    requires i < |d|
    ensures Get(d, d[i].key) == Some(d[i].value)
  {
    if i > 0 {
      var tail: Document := d[1..];
      GetAt(tail, i - 1);
    }
  }

  /** The rest pattern `const { k: _, ...rest } = d`: every property but `k`,
      in the same order with the same values. */
  function Without(d: Document, k: string): (r: Document)
    ensures !HasKey(r, k)
    ensures forall j :: j != k ==> (HasKey(r, j) <==> HasKey(d, j))
    ensures |r| == if HasKey(d, k) then |d| - 1 else |d|
  {
    if d == [] then []
    else
      var tail: Document := d[1..];
      var rest := Without(tail, k);
      assert forall j :: HasKey(d, j) <==> j == d[0].key || HasKey(tail, j) by {
        forall j | HasKey(d, j) && j != d[0].key ensures HasKey(tail, j) {
          var i :| 0 <= i < |d| && d[i].key == j;
          assert tail[i - 1].key == j;
        }
        forall j | HasKey(tail, j) ensures HasKey(d, j) {
          var i :| 0 <= i < |tail| && tail[i].key == j;
          assert d[i + 1].key == j;
        }
      }
      assert !HasKey(tail, d[0].key);
      if d[0].key == k then rest
      else
        var r := [d[0]] + rest;
        assert DistinctKeys(r) by {
          forall i, j | 0 <= i < j < |r| ensures r[i].key != r[j].key {
            if i == 0 {
              assert rest[j - 1].key == r[j].key;
              assert HasKey(rest, r[j].key);
            }
          }
        }
        assert forall j :: HasKey(r, j) <==> j == d[0].key || HasKey(rest, j) by {
          assert r[0].key == d[0].key;
          forall j | HasKey(r, j) && j != d[0].key ensures HasKey(rest, j) {
            var i :| 0 <= i < |r| && r[i].key == j;
            assert rest[i - 1].key == j;
          }
          forall j | HasKey(rest, j) ensures HasKey(r, j) {
            var i :| 0 <= i < |rest| && rest[i].key == j;
            assert r[i + 1].key == j;
          }
        }
        r
  }

  /** The rest pattern keeps the remaining properties in their order:
      removing the one property named `k` from `a + [k: v] + b` leaves `a + b`. */
  lemma {:induction false} WithoutSplit(d: Document, a: seq<Field>, v: Value, b: seq<Field>, k: string)
    requires d == a + [Field(k, v)] + b
    ensures Without(d, k) == a + b
  {
    if a == [] {
      var tail: Document := d[1..];
      assert tail == b;
      WithoutAbsent(tail, k);
    } else {
      var tail: Document := d[1..];
      assert tail == a[1..] + [Field(k, v)] + b;
      WithoutSplit(tail, a[1..], v, b, k);
      assert d[0].key != k by {
        assert d[|a|].key == k;
      }
    }
  }

  /** Removing a key the document does not have changes nothing. */
  lemma {:induction false} WithoutAbsent(d: Document, k: string)
    requires !HasKey(d, k)
    ensures Without(d, k) == d
  {
    if d != [] {
      var tail: Document := d[1..];
      assert !HasKey(tail, k);
      WithoutAbsent(tail, k);
      assert d[0].key != k;
    }
  }

  /** The values of the other keys are untouched. */
  lemma {:induction false} WithoutGet(d: Document, k: string, j: string)
    requires j != k
    ensures Get(Without(d, k), j) == Get(d, j)
  {
    if d != [] {
      var tail: Document := d[1..];
      WithoutGet(tail, k, j);
    }
  }

  // ---- how a template literal `${v}` writes a value ----

  function DigitChar(n: nat): (c: char)
    requires n < 10
    ensures '0' <= c <= '9'
  {
    "0123456789"[n]
  }

  function DigitValue(c: char): (n: nat)
    requires '0' <= c <= '9'
    ensures n < 10
  {
    (c - '0') as nat
  }

  predicate IsDigits(s: string) {
    forall i :: 0 <= i < |s| ==> '0' <= s[i] <= '9'
  }

  /** Decimal digits of `n` without leading zeros: how `${n}` writes an
      integer below 10^21. */
  function NatToDecimal(n: nat): (r: string)
    ensures |r| >= 1 && IsDigits(r)
    ensures r[0] == '0' ==> n == 0
  {
    if n < 10 then [DigitChar(n)] else NatToDecimal(n / 10) + [DigitChar(n % 10)]
  }

  /** The number a string of decimal digits denotes. */
  function DecimalValue(s: string): nat
    requires IsDigits(s)
  {
    if s == [] then 0 else 10 * DecimalValue(s[..|s| - 1]) + DigitValue(s[|s| - 1])
  }

  function IntToDecimal(n: int): string {
    if n < 0 then "-" + NatToDecimal(-n) else NatToDecimal(n)
  }

  /** Reads back what IntToDecimal writes. */
  function ParseInt(s: string): Option<int> {
    if |s| >= 2 && s[0] == '-' && IsDigits(s[1..]) then var m: int := DecimalValue(s[1..]); Some(-m)
    else if |s| >= 1 && IsDigits(s) then Some(DecimalValue(s))
    else None
  }

  lemma {:induction false} DecimalRoundTrip(n: nat)
    ensures DecimalValue(NatToDecimal(n)) == n
  {
    if n >= 10 {
      var s := NatToDecimal(n);
      DecimalRoundTrip(n / 10);
      assert s[..|s| - 1] == NatToDecimal(n / 10);
    }
  }

  /** Numbers are written so that they can be read back exactly. */
  lemma {:induction false} IntRoundTrip(n: int)
    ensures ParseInt(IntToDecimal(n)) == Some(n)
  {
    var s := IntToDecimal(n);
    if n < 0 {
      var t := NatToDecimal(-n);
      assert s == "-" + t && s[1..] == t;
      DecimalRoundTrip(-n);
    } else {
      assert '0' <= s[0] <= '9';
      DecimalRoundTrip(n);
    }
  }

  /** `${v}` (index.js:144, 191): strings raw, numbers in decimal,
      booleans and null as words, object identifiers as their hex string.
      A written number reads back as the same number. */
  function Show(v: Value): (s: string)
    ensures v.Num? ==> ParseInt(s) == Some(v.n)
  {
    match v
    case Str(s) => s
    case Num(n) => IntRoundTrip(n); IntToDecimal(n)
    case Bool(b) => if b then "true" else "false"
    case Null => "null"
    case ObjectId(h) => h
  }
}
