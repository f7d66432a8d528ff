/** The values the runtime of pulse/ works on. A JavaScript value is one of
    the variants of `Value`; host nodes are referred to by their identity in
    the host document (module `Dom`). */
module Values {

  /** The reactive object a subscription is attached to: a `state` cell, or
      a `computed` cell built around the function `fn` (the `instance`-th
      computed cell the renderer created). */
  datatype Source = StateCell(cell: nat) | ComputedCell(fn: nat, instance: nat)

  datatype Value =
    | Undefined
    | Null
    | Bool(b: bool)
    | Num(n: int)
    | Str(s: string)
      /** A callable; `tagged` records the marker set by `reactive(fn)`. */
    | Function(fn: nat, tagged: bool)
      /** A state or computed object, with the value its accessor returns. */
    | Cell(source: Source, current: Value)
    | List(items: seq<Value>)
      /** A host node handed around as a value, by identity. */
    | Host(ref: nat)
      /** Any other object. */
    | Record

  /** JavaScript falsiness of a value. */
  predicate Falsy(v: Value)
  {
    v == Undefined || v == Null || v == Bool(false) || v == Num(0) || v == Str("")
  }

  function DigitChar(d: nat): char
    requires d < 10
  {
    ('0' as int + d) as char
  }

  /** The value of a string of decimal digits. */
  function DigitsValue(s: string): nat
    requires forall i :: 0 <= i < |s| ==> '0' <= s[i] <= '9'
    decreases |s|
  {
    if s == [] then 0 else DigitsValue(s[..|s| - 1]) * 10 + (s[|s| - 1] - '0') as nat
  }

  /** The decimal digits of `n`, without leading zeros. */
  function Decimal(n: nat): (s: string)
    ensures |s| >= 1 && (forall i :: 0 <= i < |s| ==> '0' <= s[i] <= '9')
    ensures |s| > 1 ==> s[0] != '0'
    decreases n
  {
    if n < 10 then [DigitChar(n)] else Decimal(n / 10) + [DigitChar(n % 10)]
  }

  /** Reading back the digits `Decimal` writes gives the number again. */
  lemma {:induction false} DecimalRoundTrip(n: nat)
    ensures DigitsValue(Decimal(n)) == n
    decreases n
  {
    if n >= 10 {
      DecimalRoundTrip(n / 10);
      var s := Decimal(n);
      assert s[..|s| - 1] == Decimal(n / 10);
    }
  }

  /** `Number.prototype.toString()` of an integral number. */
  function NumberText(n: int): string
  {
    if n < 0 then "-" + Decimal(-n) else Decimal(n)
  }

  /** `String(v)`. */
  function ToJsString(v: Value): string
    decreases v, 1
  {
    match v
    case Undefined => "undefined"
    case Null => "null"
    case Bool(b) => if b then "true" else "false"
    case Num(n) => NumberText(n)
    case Str(s) => s
    case Function(_, _) => "function"
    case Cell(_, _) => "[object Object]"
    case List(items) => Join(v, |items|)
    case Host(_) => "[object HTMLElement]"
    case Record => "[object Object]"
  }

  /** `items.slice(0, n).join(",")`, where `null` and `undefined` items
      print as nothing. */
  function Join(list: Value, n: nat): string
    requires list.List? && n <= |list.items|
    decreases list, 0, n
  {
    if n == 0 then ""
    else
      var item := list.items[n - 1];
      var text := if item == Null || item == Undefined then "" else ToJsString(item);
      if n == 1 then text else Join(list, n - 1) + "," + text
  }
}
