/**
 * PHP values as the employee sync controller receives them from the JSON
 * decoder, and the few PHP built-ins whose exact behaviour the controller
 * depends on: `array_key_exists`, `empty`, the `(string)` cast, `trim` and
 * `array_values(array_diff(...))`.
 */
module Php {

  /** A nullable value (PHP's `?T`). */
  datatype Option<T> = None | Some(value: T)

  /** A key of a PHP array. */
  datatype Key = IntKey(i: int) | StrKey(s: string)

  /**
   * A decoded JSON value. A JSON object and a JSON list both decode to a PHP
   * array (`Arr`), whose entries are kept in insertion order. A float is
   * carried as the text PHP renders for it, since the controller only ever
   * converts floats to strings or tests them for zero.
   */
  datatype Value =
    | Null
    | Bool(b: bool)
    | Int(i: int)
    | Float(text: string)
    | Str(s: string)
    | Arr(entries: seq<(Key, Value)>)

  /**
   * Position of the entry with key `k`. PHP arrays never repeat a key; on a
   * sequence that does, the first entry is the one found.
   */
  function IndexOfKey(entries: seq<(Key, Value)>, k: Key): (r: Option<nat>)
    ensures r.Some? ==> r.value < |entries|
  {
    if |entries| == 0 then None
    else if entries[0].0 == k then Some(0)
    else
      match IndexOfKey(entries[1..], k)
      case None => None
      case Some(i) => Some(i + 1)
  }

  /** `array_key_exists($k, $a) ? $a[$k] : (absent)`. */
  function Lookup(entries: seq<(Key, Value)>, k: Key): Option<Value> {
    match IndexOfKey(entries, k)
    case None => None
    case Some(i) => Some(entries[i].1)
  }

  /** The key is found exactly when some entry has it, and then at its first entry. */
  lemma {:induction false} IndexOfKeySpec(entries: seq<(Key, Value)>, k: Key)
    ensures var r := IndexOfKey(entries, k);
            && (r.None? <==> forall i :: 0 <= i < |entries| ==> entries[i].0 != k)
            && (r.Some? ==> entries[r.value].0 == k && forall i :: 0 <= i < r.value ==> entries[i].0 != k)
  {
    if |entries| > 0 && entries[0].0 != k {
      IndexOfKeySpec(entries[1..], k);
    }
  }

  /** `array_key_exists` holds exactly when some entry has the key, and then yields its value. */
  lemma LookupSpec(entries: seq<(Key, Value)>, k: Key)
    ensures Lookup(entries, k).None? <==> forall i :: 0 <= i < |entries| ==> entries[i].0 != k
    ensures Lookup(entries, k).Some? ==> exists i :: 0 <= i < |entries| && entries[i] == (k, Lookup(entries, k).value)
  {
    IndexOfKeySpec(entries, k);
  }

  /** PHP's `empty($v)`: null, false, 0, 0.0, "", "0" and the empty array. */
  predicate IsEmpty(v: Value) {
    match v
    case Null => true
    case Bool(b) => !b
    case Int(i) => i == 0
    case Float(t) => t == "0" || t == "-0"
    case Str(s) => s == "" || s == "0"
    case Arr(e) => |e| == 0
  }

  function DigitChar(d: nat): (c: char)
    requires d < 10
    ensures '0' <= c <= '9'
  {
    "0123456789"[d]
  }

  /** Decimal rendering of a natural number, without leading zeros. */
  function NatToDecimal(n: nat): (r: string)
    ensures |r| > 0
    ensures forall i :: 0 <= i < |r| ==> '0' <= r[i] <= '9'
    ensures r[0] == '0' <==> n == 0
    ensures n == 0 <==> r == "0"
    decreases n
  {
    if n < 10 then [DigitChar(n)] else NatToDecimal(n / 10) + [DigitChar(n % 10)]
  }

  /** The number a decimal digit stands for. */
  function DigitValue(c: char): nat
    requires '0' <= c <= '9'
  {
    c as int - '0' as int
  }

  predicate AllDigits(s: string) {
    forall i :: 0 <= i < |s| ==> '0' <= s[i] <= '9'
  }

  /** The number a string of decimal digits denotes, most significant first. */
  function DecimalValue(s: string): nat
    requires AllDigits(s)
    decreases |s|
  {
    if |s| == 0 then 0 else 10 * DecimalValue(s[..|s| - 1]) + DigitValue(s[|s| - 1])
  }

  /** The number an optionally signed decimal text denotes. */
  function SignedValue(s: string): int
    requires |s| > 0 && if s[0] == '-' then AllDigits(s[1..]) else AllDigits(s)
  {
    if s[0] == '-' then -(DecimalValue(s[1..]) as int) else DecimalValue(s)
  }

  lemma DigitRoundTrip(d: nat)
    requires d < 10
    ensures DigitValue(DigitChar(d)) == d
  {
    assert "0123456789"[0] == '0' && "0123456789"[1] == '1' && "0123456789"[2] == '2';
    assert "0123456789"[3] == '3' && "0123456789"[4] == '4' && "0123456789"[5] == '5';
    assert "0123456789"[6] == '6' && "0123456789"[7] == '7' && "0123456789"[8] == '8';
    assert "0123456789"[9] == '9';
  }

  /** The decimal rendering of `n` denotes `n`. */
  lemma {:induction false} NatToDecimalValue(n: nat)
    ensures DecimalValue(NatToDecimal(n)) == n
    decreases n
  {
    var r := NatToDecimal(n);
    if n < 10 {
      DigitRoundTrip(n);
      assert r[..0] == [];
    } else {
      NatToDecimalValue(n / 10);
      DigitRoundTrip(n % 10);
      assert r[..|r| - 1] == NatToDecimal(n / 10);
    }
  }

  /** Distinct numbers render as distinct texts. */
  lemma NatToDecimalInjective(m: nat, n: nat)
    ensures NatToDecimal(m) == NatToDecimal(n) <==> m == n
  {
    NatToDecimalValue(m);
    NatToDecimalValue(n);
  }

  /** `(string) $i` for an integer. */
  function IntToDecimal(i: int): (r: string)
    ensures |r| > 0
    ensures r == "0" <==> i == 0
    ensures i < 0 <==> r[0] == '-'
  {
    if i < 0 then "-" + NatToDecimal(-i) else NatToDecimal(i)
  }

  /** `(string) $i` is the signed decimal text of `i`: read back, it gives `i`. */
  lemma IntToDecimalValue(i: int)
    ensures var r := IntToDecimal(i);
            && (if r[0] == '-' then AllDigits(r[1..]) else AllDigits(r))
            && SignedValue(r) == i
  {
    if i < 0 {
      var d := NatToDecimal(-i);
      assert IntToDecimal(i) == "-" + d;
      NatToDecimalValue(-i);
      SignedNegative(d);
    } else {
      var d := NatToDecimal(i);
      assert IntToDecimal(i) == d && AllDigits(d);
      NatToDecimalValue(i);
      assert d[0] != '-' && SignedValue(d) == DecimalValue(d);
    }
  }

  lemma SignedNegative(d: string)
    requires AllDigits(d)
    ensures var r := "-" + d;
            r[0] == '-' && r[1..] == d && SignedValue(r) == -(DecimalValue(d) as int)
  {
    assert ("-" + d)[1..] == d;
  }

  /** Two integers cast to the same string only when they are equal. */
  lemma IntToDecimalInjective(i: int, j: int)
    ensures IntToDecimal(i) == IntToDecimal(j) <==> i == j
  {
    IntToDecimalValue(i);
    IntToDecimalValue(j);
  }

  /**
   * The `(string)` cast. Converting an array yields "Array" (PHP also raises
   * a warning, which this model does not follow).
   */
  function ToStr(v: Value): string {
    match v
    case Null => ""
    case Bool(b) => if b then "1" else ""
    case Int(i) => IntToDecimal(i)
    case Float(t) => t
    case Str(s) => s
    case Arr(_) => "Array"
  }

  /** The characters `trim` strips by default: " \t\n\r\0\x0B". */
  predicate IsTrimChar(c: char) {
    c == ' ' || c == '\t' || c == '\n' || c == '\r' || c == '\0' || c == 11 as char
  }

  /** End of the run of trim characters that starts at `i`. */
  function LeadingEnd(s: string, i: nat): (r: nat)
    requires i <= |s|
    ensures i <= r <= |s|
    decreases |s| - i
  {
    if i < |s| && IsTrimChar(s[i]) then LeadingEnd(s, i + 1) else i
  }

  /** Start of the run of trim characters that ends at `j`. */
  function TrailingStart(s: string, j: nat): (r: nat)
    requires j <= |s|
    ensures r <= j
  {
    if j > 0 && IsTrimChar(s[j - 1]) then TrailingStart(s, j - 1) else j
  }

  /** `ltrim($s)`. */
  function TrimStart(s: string): string {
    s[LeadingEnd(s, 0)..]
  }

  /** `rtrim($s)`. */
  function TrimEnd(s: string): string {
    s[..TrailingStart(s, |s|)]
  }

  /** `trim($s)`. */
  function Trim(s: string): string {
    TrimEnd(TrimStart(s))
  }

  lemma {:induction false} LeadingEndSpec(s: string, i: nat)
    requires i <= |s|
    ensures forall k :: i <= k < LeadingEnd(s, i) ==> IsTrimChar(s[k])
    ensures LeadingEnd(s, i) < |s| ==> !IsTrimChar(s[LeadingEnd(s, i)])
    decreases |s| - i
  {
    if i < |s| && IsTrimChar(s[i]) {
      LeadingEndSpec(s, i + 1);
    }
  }

  lemma {:induction false} TrailingStartSpec(s: string, j: nat)
    requires j <= |s|
    ensures forall k :: TrailingStart(s, j) <= k < j ==> IsTrimChar(s[k])
    ensures TrailingStart(s, j) > 0 ==> !IsTrimChar(s[TrailingStart(s, j) - 1])
  {
    if j > 0 && IsTrimChar(s[j - 1]) {
      TrailingStartSpec(s, j - 1);
    }
  }

  /**
   * `trim($s)` is the infix of `s` left after cutting trim characters from
   * both ends; it neither starts nor ends with one.
   */
  lemma TrimSpec(s: string)
    ensures exists i, j ::
              && 0 <= i <= j <= |s| && Trim(s) == s[i..j]
              && (forall k :: 0 <= k < i ==> IsTrimChar(s[k]))
              && (forall k :: j <= k < |s| ==> IsTrimChar(s[k]))
    ensures |Trim(s)| > 0 ==> !IsTrimChar(Trim(s)[0]) && !IsTrimChar(Trim(s)[|Trim(s)| - 1])
  {
    var i := LeadingEnd(s, 0);
    LeadingEndSpec(s, 0);
    var t := s[i..];
    var j := TrailingStart(t, |t|);
    TrailingStartSpec(t, |t|);
    assert Trim(s) == t[..j] == s[i..i + j];
    forall k | i + j <= k < |s| ensures IsTrimChar(s[k]) {
      assert s[k] == t[k - i];
    }
    if j > 0 {
      assert Trim(s)[0] == s[i];
    }
  }

  /** `trim($s)` neither starts nor ends with a trim character. */
  lemma TrimEnds(s: string)
    ensures |Trim(s)| > 0 ==> !IsTrimChar(Trim(s)[0]) && !IsTrimChar(Trim(s)[|Trim(s)| - 1])
  {
    var i := LeadingEnd(s, 0);
    LeadingEndSpec(s, 0);
    var t := s[i..];
    var j := TrailingStart(t, |t|);
    TrailingStartSpec(t, |t|);
    assert Trim(s) == t[..j];
    if j > 0 {
      assert Trim(s)[0] == t[0] == s[i];
      assert Trim(s)[j - 1] == t[j - 1];
    }
  }

  /** A string made only of trim characters trims to the empty string. */
  lemma TrimAllBlank(s: string)
    requires forall k :: 0 <= k < |s| ==> IsTrimChar(s[k])
    ensures Trim(s) == ""
  {
    TrimSpec(s);
  }

  /** `array_values(array_diff($a, $b))`: the elements of `a` not in `b`, in order. */
  function Diff(a: seq<string>, b: seq<string>): (r: seq<string>)
    ensures |r| <= |a|
  {
    if |a| == 0 then []
    else Diff(a[..|a| - 1], b) + (if a[|a| - 1] in b then [] else [a[|a| - 1]])
  }

  /** An element survives `array_diff` exactly when it is in `a` and not in `b`. */
  lemma {:induction false} DiffMembership(a: seq<string>, b: seq<string>)
    ensures forall x :: x in Diff(a, b) <==> x in a && x !in b
    decreases |a|
  {
    if |a| > 0 {
      var n := |a| - 1;
      DiffMembership(a[..n], b);
      assert a == a[..n] + [a[n]];
    }
  }

  /** Nothing is left when every element of `a` is in `b`. */
  lemma {:induction false} DiffAllIn(a: seq<string>, b: seq<string>)
    requires forall x :: x in a ==> x in b
    ensures Diff(a, b) == []
    decreases |a|
  {
    if |a| > 0 {
      var n := |a| - 1;
      assert forall x :: x in a[..n] ==> x in a;
      DiffAllIn(a[..n], b);
    }
  }

  /** `array_diff` distributes over concatenation of its first argument. */
  lemma {:induction false} DiffAppend(a: seq<string>, a': seq<string>, b: seq<string>)
    ensures Diff(a + a', b) == Diff(a, b) + Diff(a', b)
    decreases |a'|
  {
    if |a'| == 0 {
      assert a + a' == a;
    } else {
      var n := |a'| - 1;
      assert (a + a')[..|a + a'| - 1] == a + a'[..n];
      DiffAppend(a, a'[..n], b);
    }
  }

  /** `array_diff` only looks at which elements its second argument holds. */
  lemma {:induction false} DiffSameElements(a: seq<string>, b: seq<string>, b': seq<string>)
    requires forall x :: x in b <==> x in b'
    ensures Diff(a, b) == Diff(a, b')
    decreases |a|
  {
    if |a| > 0 {
      DiffSameElements(a[..|a| - 1], b, b');
    }
  }
}
