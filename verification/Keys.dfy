/** Document ids, their components, and the order of clustering values inside them. */
module Keys {
  import opened Wrappers

  // ------------------------------------------------------------------------
  // Joining and splitting at ':'
  // ------------------------------------------------------------------------

  function Join(parts: seq<string>): string {
    if |parts| == 0 then ""
    else if |parts| == 1 then parts[0]
    else parts[0] + ":" + Join(parts[1..])
  }

  function Split(s: string): (parts: seq<string>)
    ensures |parts| > 0
  {
    if s == "" then [""]
    else
      var rest := Split(s[1..]);
      if s[0] == ':' then [""] + rest else [[s[0]] + rest[0]] + rest[1..]
  }

  predicate ColonFree(parts: seq<string>) {
    forall i :: 0 <= i < |parts| ==> ':' !in parts[i]
  }

  lemma {:induction false} SplitPrefix(head: string, rest: string)
    requires ':' !in head
    ensures Split(head + ":" + rest) == [head] + Split(rest)
    ensures Split(head) == [head]
    decreases |head|
  {
    if head == "" {
      assert head + ":" + rest == ":" + rest;
      assert (":" + rest)[1..] == rest;
    } else {
      assert (head + ":" + rest)[1..] == head[1..] + ":" + rest;
      SplitPrefix(head[1..], rest);
      assert [head[0]] + head[1..] == head;
    }
  }

  lemma {:induction false} SplitIsColonFree(s: string)
    ensures ColonFree(Split(s))
  {
    if s != "" {
      SplitIsColonFree(s[1..]);
    }
  }

  lemma {:induction false} SplitOfJoin(parts: seq<string>)
    requires |parts| > 0 && ColonFree(parts)
    ensures Split(Join(parts)) == parts
    decreases |parts|
  {
    if |parts| == 1 {
      SplitPrefix(parts[0], "");
    } else {
      SplitOfJoin(parts[1..]);
      SplitPrefix(parts[0], Join(parts[1..]));
    }
  }

  /** The leading and the trailing components of an id. */
  lemma SplitOfTwo(pk: seq<string>, rest: seq<string>)
    requires |pk| + |rest| > 0 && ColonFree(pk) && ColonFree(rest)
    ensures var parts := Split(Join(pk + rest));
            |parts| == |pk| + |rest| && parts[..|pk|] == pk && parts[|pk|..] == rest
  {
    var all := pk + rest;
    assert ColonFree(all) by {
      forall i | 0 <= i < |all|
        ensures ':' !in all[i]
      {
        assert all[i] == if i < |pk| then pk[i] else rest[i - |pk|];
      }
    }
    SplitOfJoin(all);
    assert all[..|pk|] == pk && all[|pk|..] == rest;
  }

  /** A joined key gives its components back exactly when there is one and none holds a colon. */
  lemma SplitRecoversIff(parts: seq<string>)
    ensures Split(Join(parts)) == parts <==> |parts| > 0 && ColonFree(parts)
  {
    if |parts| > 0 && ColonFree(parts) {
      SplitOfJoin(parts);
    }
    SplitIsColonFree(Join(parts));
  }

  /** Splitting loses nothing. */
  lemma {:induction false} JoinOfSplit(s: string)
    ensures Join(Split(s)) == s
  {
    if s != "" {
      JoinOfSplit(s[1..]);
      var rest := Split(s[1..]);
      if s[0] == ':' {
        assert ([""] + rest)[1..] == rest;
      } else if |rest| > 1 {
        var whole := [[s[0]] + rest[0]] + rest[1..];
        assert whole[1..] == rest[1..];
        assert Join(whole) == [s[0]] + rest[0] + ":" + Join(rest[1..]);
      }
    }
  }

  /** Different rows have different ids. */
  lemma IdsAreInjective(xs: seq<string>, ys: seq<string>)
    requires |xs| > 0 && |ys| > 0 && ColonFree(xs) && ColonFree(ys)
    ensures Join(xs) == Join(ys) <==> xs == ys
  {
    SplitOfJoin(xs);
    SplitOfJoin(ys);
  }

  // ------------------------------------------------------------------------
  // Printed integers
  // ------------------------------------------------------------------------

  function Digit(d: nat): (c: char)
    requires d < 10
  {
    ['0', '1', '2', '3', '4', '5', '6', '7', '8', '9'][d]
  }

  function DigitValue(c: char): Option<nat> {
    if '0' <= c <= '9' then Some((c - '0') as int) else None
  }

  function PrintNat(n: nat): string {
    if n < 10 then [Digit(n)] else PrintNat(n / 10) + [Digit(n % 10)]
  }

  /** `to_string` of an integer. */
  function PrintInt(n: int): string {
    if n < 0 then "-" + PrintNat(-n) else PrintNat(n)
  }

  /** The value of a non-empty string of decimal digits. */
  function ParseDigits(s: string): Option<nat>
    decreases |s|
  {
    if s == "" then None
    else
      var last := DigitValue(s[|s| - 1]);
      if |s| == 1 || last.None? then last
      else
        match ParseDigits(s[..|s| - 1])
        case None => None
        case Some(high) => Some(high * 10 + last.value)
  }

  /** An optional sign, then digits; the integer parsers of the standard library without their range checks. */
  function ParseSigned(s: string): Option<int> {
    if s != "" && (s[0] == '-' || s[0] == '+') then
      match ParseDigits(s[1..])
      case None => None
      case Some(n) =>
        var magnitude: int := n;
        Some(if s[0] == '-' then -magnitude else magnitude)
    else
      ParseDigits(s)
  }

  /** `parse::<i64>`. */
  function ParseI64(s: string): Option<int> {
    match ParseSigned(s)
    case Some(n) => if -0x8000_0000_0000_0000 <= n <= 0x7FFF_FFFF_FFFF_FFFF then Some(n) else None
    case None => None
  }

  /** `parse::<u8>`: a minus sign is never accepted. */
  function ParseU8(s: string): Option<nat> {
    if s != "" && s[0] == '-' then None
    else
      match ParseSigned(s)
      case Some(n) => if 0 <= n <= 255 then Some(n) else None
      case None => None
  }

  lemma {:induction false} ParsePrintNat(n: nat)
    ensures ParseDigits(PrintNat(n)) == Some(n)
    ensures PrintNat(n) != "" && PrintNat(n)[0] != '-' && PrintNat(n)[0] != '+' && ':' !in PrintNat(n)
  {
    if n >= 10 {
      ParsePrintNat(n / 10);
      var s := PrintNat(n);
      assert s[..|s| - 1] == PrintNat(n / 10);
      assert DigitValue(s[|s| - 1]) == Some(n % 10);
    }
  }

  /** Parsing a printed 64-bit integer gives it back, and printing never yields a colon. */
  lemma ParsePrintInt(n: int)
    requires -0x8000_0000_0000_0000 <= n <= 0x7FFF_FFFF_FFFF_FFFF
    ensures ParseI64(PrintInt(n)) == Some(n)
    ensures ':' !in PrintInt(n)
  {
    ParsePrintNat(if n < 0 then -n else n);
    if n < 0 {
      assert PrintInt(n)[1..] == PrintNat(-n);
    }
  }

  // ------------------------------------------------------------------------
  // What the parsers accept
  // ------------------------------------------------------------------------

  function Zeros(k: nat): string {
    seq(k, _ => '0')
  }

  /** A spelling of a number: its decimal digits after any number of zeros. */
  ghost predicate Spells(s: string, n: nat) {
    exists k: nat :: s == Zeros(k) + PrintNat(n)
  }

  lemma SnocPrint(n: nat, d: nat)
    requires d < 10
    ensures PrintNat(n * 10 + d) == if n == 0 then [Digit(d)] else PrintNat(n) + [Digit(d)]
  {
  }

  lemma SnocSpells(front: string, n: nat, d: nat)
    requires d < 10 && Spells(front, n)
    ensures Spells(front + [Digit(d)], n * 10 + d)
  {
    var k: nat :| front == Zeros(k) + PrintNat(n);
    SnocPrint(n, d);
    if n == 0 {
      assert front + [Digit(d)] == Zeros(k + 1) + [Digit(d)];
    } else {
      assert front + [Digit(d)] == Zeros(k) + PrintNat(n * 10 + d);
    }
  }

  lemma {:induction false} ParsedIsSpelled(s: string)
    requires ParseDigits(s).Some?
    ensures Spells(s, ParseDigits(s).value)
    decreases |s|
  {
    var front, d := s[..|s| - 1], DigitValue(s[|s| - 1]).value;
    assert s == front + [s[|s| - 1]] && s[|s| - 1] == Digit(d);
    if front == "" {
      assert s == Zeros(0) + PrintNat(d);
    } else {
      ParsedIsSpelled(front);
      SnocSpells(front, ParseDigits(front).value, d);
    }
  }

  lemma {:induction false} ZerosDoNotCount(k: nat, n: nat)
    ensures ParseDigits(Zeros(k) + PrintNat(n)) == Some(n)
    decreases k + n
  {
    var s := Zeros(k) + PrintNat(n);
    if n >= 10 {
      ZerosDoNotCount(k, n / 10);
      assert s[..|s| - 1] == Zeros(k) + PrintNat(n / 10);
    } else if k > 0 {
      ZerosDoNotCount(k - 1, 0);
      assert s[..|s| - 1] == Zeros(k - 1) + PrintNat(0);
    } else {
      assert s == [Digit(n)];
    }
  }

  /** The digit parser accepts exactly the spellings of a number. */
  lemma ParseDigitsIff(s: string, n: nat)
    ensures ParseDigits(s) == Some(n) <==> Spells(s, n)
  {
    if ParseDigits(s).Some? {
      ParsedIsSpelled(s);
    }
    if k: nat :| s == Zeros(k) + PrintNat(n) {
      ZerosDoNotCount(k, n);
    }
  }

  /** A spelling behind an optional plus, or behind a minus for the opposite. */
  ghost predicate SpellsSigned(s: string, n: int) {
    (n >= 0 && Spells(s, n)) || (n >= 0 && s != "" && s[0] == '+' && Spells(s[1..], n)) ||
    (n <= 0 && s != "" && s[0] == '-' && Spells(s[1..], -n))
  }

  lemma SpelledStartsWithDigit(s: string, n: nat)
    requires Spells(s, n)
    ensures s != "" && '0' <= s[0] <= '9'
  {
    ParseDigitsIff(s, n);
    DigitsOnly(s);
  }

  lemma ParseSignedIff(s: string, n: int)
    ensures ParseSigned(s) == Some(n) <==> SpellsSigned(s, n)
  {
    if s != "" && (s[0] == '-' || s[0] == '+') {
      if n >= 0 {
        ParseDigitsIff(s[1..], n);
      }
      if n <= 0 {
        ParseDigitsIff(s[1..], -n);
      }
      if n >= 0 && Spells(s, n) {
        SpelledStartsWithDigit(s, n);
      }
    } else if n >= 0 {
      ParseDigitsIff(s, n);
    }
  }

  /** `parse::<i64>` accepts exactly the signed spellings of the 64-bit integers. */
  lemma ParseI64Iff(s: string, n: int)
    ensures ParseI64(s) == Some(n) <==> SpellsSigned(s, n) && -0x8000_0000_0000_0000 <= n <= 0x7FFF_FFFF_FFFF_FFFF
  {
    ParseSignedIff(s, n);
  }

  /** `parse::<u8>` accepts exactly the spellings of the numbers up to 255, with or without a plus. */
  lemma ParseU8Iff(s: string, n: nat)
    ensures ParseU8(s) == Some(n) <==>
            n <= 255 && (Spells(s, n) || (s != "" && s[0] == '+' && Spells(s[1..], n)))
  {
    ParseSignedIff(s, n);
    if Spells(s, n) {
      SpelledStartsWithDigit(s, n);
    }
  }

  // ------------------------------------------------------------------------
  // Comparing clustering values
  // ------------------------------------------------------------------------

  datatype Ordering = Less | Equal | Greater

  function CompareInt(a: int, b: int): Ordering {
    if a < b then Less else if a == b then Equal else Greater
  }

  /** Code points, left to right. */
  function CompareText(a: string, b: string): Ordering {
    if a == "" || b == "" then CompareInt(|a|, |b|)
    else if a[0] == b[0] then CompareText(a[1..], b[1..])
    else if a[0] < b[0] then Less else Greater
  }

  /**
   * Clustering column types as far as they compare and print differently: integers, `timestamp`, the text
   * types, `uuid` and `boolean`. The remaining types are not part of this model.
   */
  datatype ColumnType =
    | IntType | BigIntType | SmallIntType | TinyIntType | VarintType | CounterType | TimestampType
    | TextType | UuidType | BooleanType

  predicate ComparedAsText(ty: ColumnType) {
    ty.TextType? || ty.UuidType? || ty.BooleanType?
  }

  /** `compare_cql_values`: the integer types and `timestamp` try to parse both sides first. */
  function CompareCql(a: string, b: string, ty: ColumnType): Ordering {
    if ComparedAsText(ty) then CompareText(a, b)
    else
      match (ParseI64(a), ParseI64(b))
      case (Some(x), Some(y)) => CompareInt(x, y)
      case _ => CompareText(a, b)
  }

  /** A clustering value as `cql_value_to_key_string` sees it: text-like, `Int` or `BigInt`, or any other variant. */
  datatype KeyValue = Plain(text: string) | Integer(n: int) | Debugged(variant: string, inner: string)

  /** `cql_value_to_key_string`: the variants it does not list fall back to their debug form. */
  function KeyString(v: KeyValue): string {
    match v
    case Plain(text) => text
    case Integer(n) => PrintInt(n)
    case Debugged(variant, inner) => variant + "(" + inner + ")"
  }

  predicate InRangeOf(n: int, bits: nat) {
    match bits
    case 8 => -0x80 <= n <= 0x7F
    case 16 => -0x8000 <= n <= 0x7FFF
    case 32 => -0x8000_0000 <= n <= 0x7FFF_FFFF
    case _ => -0x8000_0000_0000_0000 <= n <= 0x7FFF_FFFF_FFFF_FFFF
  }

  /** The integer types whose values print in debug form; `varint` prints its bytes instead. */
  predicate PrintsDebugged(ty: ColumnType) {
    ty.SmallIntType? || ty.TinyIntType? || ty.CounterType? || ty.TimestampType?
  }

  function Bits(ty: ColumnType): nat {
    match ty
    case TinyIntType => 8
    case SmallIntType => 16
    case IntType => 32
    case _ => 64
  }

  /** The variant's name, and the name of the struct inside it if there is one. */
  function Variant(ty: ColumnType): string {
    match ty
    case SmallIntType => "SmallInt"
    case TinyIntType => "TinyInt"
    case CounterType => "Counter"
    case _ => "Timestamp"
  }

  function Wrapper(ty: ColumnType): string {
    match ty
    case CounterType => "Counter("
    case TimestampType => "CqlTimestamp("
    case _ => ""
  }

  /** The value of such a type that holds `n`. */
  function DebuggedInteger(n: int, ty: ColumnType): KeyValue {
    Debugged(Variant(ty), Wrapper(ty) + PrintInt(n) + if Wrapper(ty) == "" then "" else ")")
  }

  /** The debug form of a list of bytes, without its brackets. */
  function BytesText(bytes: seq<nat>): string {
    if bytes == [] then ""
    else if |bytes| == 1 then PrintNat(bytes[0])
    else PrintNat(bytes[0]) + ", " + BytesText(bytes[1..])
  }

  predicate IsUuid(s: string) {
    |s| == 36 &&
    forall i :: 0 <= i < 36 ==>
      if i == 8 || i == 13 || i == 18 || i == 23 then s[i] == '-' else '0' <= s[i] <= '9' || 'a' <= s[i] <= 'f'
  }

  /** Only `int` and `bigint` values print as bare integers. */
  ghost predicate HasType(v: KeyValue, ty: ColumnType) {
    match ty
    case IntType => v.Integer? && InRangeOf(v.n, 32)
    case BigIntType => v.Integer? && InRangeOf(v.n, 64)
    case SmallIntType => exists n: int :: InRangeOf(n, 16) && v == DebuggedInteger(n, SmallIntType)
    case TinyIntType => exists n: int :: InRangeOf(n, 8) && v == DebuggedInteger(n, TinyIntType)
    case CounterType => exists n: int :: InRangeOf(n, 64) && v == DebuggedInteger(n, CounterType)
    case TimestampType => exists n: int :: InRangeOf(n, 64) && v == DebuggedInteger(n, TimestampType)
    case VarintType =>
      exists bytes: seq<nat> :: bytes != [] && v == Debugged("Varint", "CqlVarint([" + BytesText(bytes) + "])")
    case TextType => v.Plain?
    case UuidType => v.Plain? && IsUuid(v.text)
    case BooleanType => v == Plain("true") || v == Plain("false")
  }

  lemma {:induction false} TextOrderIsTotal(a: string, b: string, c: string)
    ensures CompareText(a, b) == Equal <==> a == b
    ensures CompareText(a, b) == Less <==> CompareText(b, a) == Greater
    ensures CompareText(a, b) == Less && CompareText(b, c) == Less ==> CompareText(a, c) == Less
    decreases |a|
  {
    if a != "" {
      var b' := if b == "" then "" else b[1..];
      var c' := if c == "" then "" else c[1..];
      TextOrderIsTotal(a[1..], b', c');
      assert a == [a[0]] + a[1..];
      assert b != "" ==> b == [b[0]] + b[1..];
    }
  }

  /** The strings first differ at index `k`, where the first has the smaller code point. */
  predicate SmallerAt(a: string, b: string, k: nat) {
    k < |a| && k < |b| && a[..k] == b[..k] && a[k] < b[k]
  }

  /** The first string is a proper prefix of the second, or has the smaller code point where they first differ. */
  ghost predicate Before(a: string, b: string) {
    (|a| < |b| && a == b[..|a|]) || exists k: nat :: SmallerAt(a, b, k)
  }

  lemma SmallerInTail(a: string, b: string, k: nat)
    requires a != "" && b != "" && a[0] == b[0]
    ensures SmallerAt(a, b, k + 1) <==> SmallerAt(a[1..], b[1..], k)
  {
    if k < |a| - 1 && k < |b| - 1 {
      assert a[..k + 1] == [a[0]] + a[1..][..k] && b[..k + 1] == [b[0]] + b[1..][..k];
      assert a[..k + 1][1..] == a[1..][..k] && b[..k + 1][1..] == b[1..][..k];
    }
  }

  lemma PrefixInTail(a: string, b: string)
    requires a != "" && |a| < |b| && a[0] == b[0]
    ensures a == b[..|a|] <==> a[1..] == b[1..][..|a| - 1]
  {
    assert a == [a[0]] + a[1..] && b[..|a|] == [b[0]] + b[1..][..|a| - 1];
    assert b[..|a|][1..] == b[1..][..|a| - 1];
  }

  lemma BeforeInTail(a: string, b: string)
    requires a != "" && b != "" && a[0] == b[0]
    ensures Before(a, b) <==> Before(a[1..], b[1..])
  {
    if |a| < |b| {
      PrefixInTail(a, b);
    }
    if k: nat :| SmallerAt(a, b, k) {
      SmallerInTail(a, b, k - 1);
    }
    if k: nat :| SmallerAt(a[1..], b[1..], k) {
      SmallerInTail(a, b, k);
    }
  }

  /** The textual comparison is the dictionary order of code points, shorter strings first. */
  lemma {:induction false} TextOrderIsDictionary(a: string, b: string)
    ensures CompareText(a, b) == Less <==> Before(a, b)
    decreases |a|
  {
    if a != "" && b != "" {
      if a[0] == b[0] {
        TextOrderIsDictionary(a[1..], b[1..]);
        BeforeInTail(a, b);
      } else {
        assert SmallerAt(a, b, 0) <==> a[0] < b[0];
        assert |a| < |b| ==> b[..|a|][0] == b[0];
        assert forall k: nat :: 0 < k < |a| && k < |b| ==> a[..k][0] == a[0] && b[..k][0] == b[0];
      }
    }
  }

  /** A key string some value of the column's type has. */
  ghost predicate Printable(s: string, ty: ColumnType) {
    exists v: KeyValue :: HasType(v, ty) && s == KeyString(v)
  }

  /** Printed 64-bit integers are ordered exactly as the integers. */
  lemma ComparePrintedIntegers(a: int, b: int, ty: ColumnType)
    requires InRangeOf(a, 64) && InRangeOf(b, 64) && !ComparedAsText(ty)
    ensures CompareCql(PrintInt(a), PrintInt(b), ty) == CompareInt(a, b)
  {
    ParsePrintInt(a);
    ParsePrintInt(b);
  }

  lemma {:induction false} DigitsOnly(s: string)
    requires ParseDigits(s).Some?
    ensures s != "" && forall i :: 0 <= i < |s| ==> '0' <= s[i] <= '9'
    decreases |s|
  {
    if |s| > 1 {
      DigitsOnly(s[..|s| - 1]);
    }
  }

  lemma LettersDoNotParse(s: string)
    requires s != "" && 'A' <= s[0] <= 'Z'
    ensures ParseI64(s) == None
  {
    if ParseDigits(s).Some? {
      DigitsOnly(s);
    }
  }

  /** Values that print in debug form are compared as text, whatever the column type tries first. */
  lemma DebuggedCompareAsText(a: string, b: string, ty: ColumnType)
    requires !ty.IntType? && !ty.BigIntType? && Printable(a, ty) && Printable(b, ty)
    ensures CompareCql(a, b, ty) == CompareText(a, b)
  {
    if !ComparedAsText(ty) {
      LettersDoNotParse(a);
    }
  }

  /** On the values a column can print, the comparison is a strict total order. */
  lemma CqlOrderIsTotal(a: string, b: string, c: string, ty: ColumnType)
    requires Printable(a, ty) && Printable(b, ty) && Printable(c, ty)
    ensures CompareCql(a, b, ty) == Equal <==> a == b
    ensures CompareCql(a, b, ty) == Less <==> CompareCql(b, a, ty) == Greater
    ensures CompareCql(a, b, ty) == Less && CompareCql(b, c, ty) == Less ==> CompareCql(a, c, ty) == Less
  {
    if ty.IntType? || ty.BigIntType? {
      var x: KeyValue :| HasType(x, ty) && a == KeyString(x);
      var y: KeyValue :| HasType(y, ty) && b == KeyString(y);
      var z: KeyValue :| HasType(z, ty) && c == KeyString(z);
      ComparePrintedIntegers(x.n, y.n, ty);
      ComparePrintedIntegers(y.n, x.n, ty);
      ComparePrintedIntegers(y.n, z.n, ty);
      ComparePrintedIntegers(x.n, z.n, ty);
    } else {
      DebuggedCompareAsText(a, b, ty);
      DebuggedCompareAsText(b, a, ty);
      DebuggedCompareAsText(b, c, ty);
      DebuggedCompareAsText(a, c, ty);
      TextOrderIsTotal(a, b, c);
    }
  }

  /** Off those values the textual fallback closes a cycle: "9" < "10" < "1a" < "9". */
  lemma MixedComparisonCycles()
    ensures CompareCql("9", "10", IntType) == Less
    ensures CompareCql("10", "1a", IntType) == Less
    ensures CompareCql("1a", "9", IntType) == Less
  {
    assert ParseDigits("1") == Some(1) && "10"[..1] == "1" && "1a"[..1] == "1";
    assert ParseSigned("9") == Some(9) && ParseSigned("10") == Some(10) && ParseSigned("1a") == None;
    assert "10"[1..] == "0" && "1a"[1..] == "a";
    assert CompareText("0", "a") == Less;
  }

  // ------------------------------------------------------------------------
  // The order of debug-printed integers
  // ------------------------------------------------------------------------

  /** The leading `k` digits of a number that has more. */
  function Lead(n: nat, k: nat): nat {
    if |PrintNat(n)| <= k || n < 10 then n else Lead(n / 10, k)
  }

  /** How the text of two numbers followed by a closing parenthesis is ordered. */
  function NatTextOrder(m: nat, n: nat): Ordering {
    var k, l := |PrintNat(m)|, |PrintNat(n)|;
    if k == l then CompareInt(m, n)
    else if k < l then (if m <= Lead(n, k) then Less else Greater)
    else (if n <= Lead(m, l) then Greater else Less)
  }

  lemma DigitCount(n: nat)
    ensures |PrintNat(n)| > 0 && (n < 10 <==> |PrintNat(n)| == 1)
  {
    ParsePrintNat(n);
    ParsePrintNat(n / 10);
  }

  lemma LastDigit(n: nat, u: string)
    requires n >= 10
    ensures PrintNat(n) + u == PrintNat(n / 10) + ([Digit(n % 10)] + u)
    ensures |PrintNat(n / 10)| == |PrintNat(n)| - 1
  {
  }

  lemma OneDigit(m: nat, n: nat, u: string, w: string)
    requires m < 10 && n < 10
    ensures CompareText([Digit(m)] + u, [Digit(n)] + w) == if m == n then CompareText(u, w) else CompareInt(m, n)
  {
    var x, y := [Digit(m)] + u, [Digit(n)] + w;
    assert x[1..] == u && y[1..] == w;
  }

  lemma {:induction false} SameLengthText(m: nat, n: nat, u: string, w: string)
    requires |PrintNat(m)| == |PrintNat(n)|
    ensures CompareText(PrintNat(m) + u, PrintNat(n) + w) == if m == n then CompareText(u, w) else CompareInt(m, n)
    decreases m
  {
    DigitCount(m);
    DigitCount(n);
    if m >= 10 {
      LastDigit(m, u);
      LastDigit(n, w);
      SameLengthText(m / 10, n / 10, [Digit(m % 10)] + u, [Digit(n % 10)] + w);
      OneDigit(m % 10, n % 10, u, w);
    } else {
      assert PrintNat(m) == [Digit(m)] && PrintNat(n) == [Digit(n)];
      OneDigit(m, n, u, w);
    }
  }

  lemma {:induction false} LeadIsPrefix(n: nat, k: nat) returns (rest: string)
    requires 0 < k < |PrintNat(n)|
    ensures PrintNat(n) == PrintNat(Lead(n, k)) + rest && |PrintNat(Lead(n, k))| == k
    ensures rest != "" && '0' <= rest[0] <= '9'
  {
    var last := [Digit(n % 10)];
    assert PrintNat(n) == PrintNat(n / 10) + last;
    if |PrintNat(n / 10)| <= k {
      rest := last;
    } else {
      var front := LeadIsPrefix(n / 10, k);
      rest := front + last;
      assert PrintNat(n) == PrintNat(Lead(n, k)) + rest;
    }
  }

  /** Whatever closes the debug form sorts before every digit. */
  predicate Closes(t: string) {
    t != "" && t[0] == ')'
  }

  lemma ShorterText(m: nat, n: nat, t: string)
    requires |PrintNat(m)| < |PrintNat(n)| && Closes(t)
    ensures CompareText(PrintNat(m) + t, PrintNat(n) + t) == if m <= Lead(n, |PrintNat(m)|) then Less else Greater
    ensures CompareText(PrintNat(n) + t, PrintNat(m) + t) == if m <= Lead(n, |PrintNat(m)|) then Greater else Less
  {
    ParsePrintNat(m);
    var k := |PrintNat(m)|;
    var rest := LeadIsPrefix(n, k);
    assert PrintNat(n) + t == PrintNat(Lead(n, k)) + (rest + t);
    SameLengthText(m, Lead(n, k), t, rest + t);
    SameLengthText(Lead(n, k), m, rest + t, t);
    assert (rest + t)[0] == rest[0];
  }

  lemma NatTextOrderIs(m: nat, n: nat, t: string)
    requires Closes(t)
    ensures CompareText(PrintNat(m) + t, PrintNat(n) + t) == NatTextOrder(m, n)
  {
    if |PrintNat(m)| == |PrintNat(n)| {
      SameLengthText(m, n, t, t);
      TextOrderIsTotal(t, t, t);
    } else if |PrintNat(m)| < |PrintNat(n)| {
      ShorterText(m, n, t);
    } else {
      ShorterText(n, m, t);
    }
  }

  lemma {:induction false} CommonPrefix(p: string, x: string, y: string)
    ensures CompareText(p + x, p + y) == CompareText(x, y)
  {
    if p == "" {
      assert p + x == x && p + y == y;
    } else {
      assert (p + x)[1..] == p[1..] + x && (p + y)[1..] == p[1..] + y;
      CommonPrefix(p[1..], x, y);
    }
  }

  /** The order the comparison gives two debug-printed integers of one variant. */
  function DebugOrder(a: int, b: int): Ordering {
    if a < 0 && b < 0 then NatTextOrder(-a, -b)
    else if a < 0 then Less
    else if b < 0 then Greater
    else NatTextOrder(a, b)
  }

  predicate IsNegative(s: string, m: nat) {
    s == "-" + PrintNat(m)
  }

  lemma SignFirst(s: string, m: nat, n: nat, t: string)
    requires IsNegative(s, m) && Closes(t)
    ensures CompareText(s + t, PrintNat(n) + t) == Less
    ensures CompareText(PrintNat(n) + t, s + t) == Greater
  {
    ParsePrintNat(n);
    DigitsOnly(PrintNat(n));
    var x, y := s + t, PrintNat(n) + t;
    assert x[0] == '-' && y[0] == PrintNat(n)[0];
  }

  lemma SameSign(p: string, q: string, t: string)
    ensures CompareText("-" + p + t, "-" + q + t) == CompareText(p + t, q + t)
  {
    var x, y := "-" + p + t, "-" + q + t;
    assert x[1..] == p + t && y[1..] == q + t;
  }

  lemma NegativeTextOrder(s: string, m: nat, r: string, n: nat, t: string)
    requires IsNegative(s, m) && IsNegative(r, n) && Closes(t)
    ensures CompareText(s + t, r + t) == NatTextOrder(m, n)
  {
    SameSign(PrintNat(m), PrintNat(n), t);
    NatTextOrderIs(m, n, t);
  }

  lemma PrintedNegative(a: int)
    requires a < 0
    ensures IsNegative(PrintInt(a), -a)
  {
  }

  lemma DebugTextOrder(a: int, b: int, t: string)
    requires Closes(t)
    ensures CompareText(PrintInt(a) + t, PrintInt(b) + t) == DebugOrder(a, b)
  {
    if a < 0 && b < 0 {
      PrintedNegative(a);
      PrintedNegative(b);
      NegativeTextOrder(PrintInt(a), -a, PrintInt(b), -b, t);
    } else if a < 0 {
      PrintedNegative(a);
      SignFirst(PrintInt(a), -a, b, t);
    } else if b < 0 {
      PrintedNegative(b);
      SignFirst(PrintInt(b), -b, a, t);
    } else {
      NatTextOrderIs(a, b, t);
    }
  }

  function Opening(ty: ColumnType): string {
    Variant(ty) + "(" + Wrapper(ty)
  }

  function Closing(ty: ColumnType): string {
    (if Wrapper(ty) == "" then "" else ")") + ")"
  }

  lemma Regroup(variant: string, wrapper: string, digits: string, close: string)
    ensures variant + "(" + (wrapper + digits + close) + ")" == (variant + "(" + wrapper) + (digits + (close + ")"))
  {
  }

  lemma DebuggedText(n: int, ty: ColumnType)
    ensures KeyString(DebuggedInteger(n, ty)) == Opening(ty) + (PrintInt(n) + Closing(ty))
  {
    Regroup(Variant(ty), Wrapper(ty), PrintInt(n), if Wrapper(ty) == "" then "" else ")");
  }

  /** Values of the debug-printed integer types compare by the text of their decimals. */
  lemma DebuggedIntegersCompareAsText(a: int, b: int, ty: ColumnType)
    requires PrintsDebugged(ty) && InRangeOf(a, Bits(ty)) && InRangeOf(b, Bits(ty))
    ensures CompareCql(KeyString(DebuggedInteger(a, ty)), KeyString(DebuggedInteger(b, ty)), ty) == DebugOrder(a, b)
  {
    assert HasType(DebuggedInteger(a, ty), ty) && HasType(DebuggedInteger(b, ty), ty);
    DebuggedCompareAsText(KeyString(DebuggedInteger(a, ty)), KeyString(DebuggedInteger(b, ty)), ty);
    DebuggedText(a, ty);
    DebuggedText(b, ty);
    CommonPrefix(Opening(ty), PrintInt(a) + Closing(ty), PrintInt(b) + Closing(ty));
    DebugTextOrder(a, b, Closing(ty));
  }

  /**
   * That text order is the integer order exactly for unequal signs, for non-negative numbers where the one
   * with fewer digits does not exceed the other's leading digits, and for negative numbers where its
   * magnitude does.
   */
  lemma DebugOrderIsRightIff(a: int, b: int)
    ensures DebugOrder(a, b) == CompareInt(a, b) <==>
            a == b || (a < 0) != (b < 0) ||
            var m, n := if a < 0 then -a else a, if b < 0 then -b else b;
            var k, l := |PrintNat(m)|, |PrintNat(n)|;
            if a >= 0 then k == l || (if k < l then m <= Lead(n, k) else n <= Lead(m, l))
            else k != l && (if k < l then m > Lead(n, k) else n > Lead(m, l))
  {
    if a != b && (a < 0) == (b < 0) {
      var m, n := if a < 0 then -a else a, if b < 0 then -b else b;
      if |PrintNat(m)| < |PrintNat(n)| {
        FewerDigitsSmaller(m, n);
      } else if |PrintNat(n)| < |PrintNat(m)| {
        FewerDigitsSmaller(n, m);
      }
    }
  }

  lemma {:induction false} FewerDigitsSmaller(m: nat, n: nat)
    requires |PrintNat(m)| < |PrintNat(n)|
    ensures m < n
  {
    DigitCount(m);
    DigitCount(n);
    if m >= 10 {
      FewerDigitsSmaller(m / 10, n / 10);
    }
  }

  lemma TenBeforeNine()
    ensures DebugOrder(10, 9) == Less
  {
    assert PrintNat(1) == "1" && PrintNat(10) == "10" && PrintNat(9) == "9";
    assert Lead(10, 1) == Lead(1, 1) == 1;
  }

  /** So in a `smallint` column 10 sorts before 9. */
  lemma TenSortsBeforeNine()
    ensures CompareCql(KeyString(DebuggedInteger(10, SmallIntType)), KeyString(DebuggedInteger(9, SmallIntType)),
                       SmallIntType) == Less
  {
    DebuggedIntegersCompareAsText(10, 9, SmallIntType);
    TenBeforeNine();
  }
}
