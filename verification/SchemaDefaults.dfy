/** Field defaults: the Haskell text the generator emits for an absent field, what the
    text denotes at the field's type, and what the schema means by the default. */
module SchemaDefaults {
  import opened Wrappers
  import opened SchemaTypes
  import Decimal

  /** Values of the generated Haskell types, compact and nullable wrappers left out.
      Undefined stands for code that is not generated or does not type-check. */
  datatype Value =
    | Nothing
    | IntValue(n: int)
    | DoubleValue(r: real)
    | BoolValue(b: bool)
    | StrValue(s: string)
    | Array(items: seq<Value>)
    | Record(fields: map<string, Value>)
    | EmptyTaggedFields
    | Undefined

  // ------------------------------------------------ the emitted text

  predicate StartsWith(s: string, p: string) {
    p <= s
  }

  function HexDigit(c: char): nat {
    if '0' <= c <= '9' then (c - '0') as nat
    else if 'a' <= c <= 'f' then (c - 'a') as nat + 10
    else if 'A' <= c <= 'F' then (c - 'A') as nat + 10
    else 0
  }

  function HexValue(s: string): nat {
    if s == "" then 0 else 16 * HexValue(s[..|s| - 1]) + HexDigit(s[|s| - 1])
  }

  predicate IsNegative(s: string) {
    s != "" && s[0] == '-' && exists i :: 0 < i < |s| && '1' <= s[i] <= '9'
  }

  const EMPTY_ARRAY := "KaArray (Just V.empty)"
  const EMPTY_STRING := "\"\""

  /** `get_field_default`, as it is printed; nothing when Python's int raises. */
  function DefaultText(kaType: string, default: Option<string>): Option<string> {
    match default
    case Some(d) => if d == "null" then Some("Nothing") else ExplicitText(StartsWith(kaType, "int"), d)
    case None =>
      Some(
        if StartsWith(kaType, "int") || kaType == "float" then "0"
        else if kaType == "string" || kaType == "bytes" then EMPTY_STRING
        else if kaType == "bool" then "False"
        else if kaType == "records" then "Nothing"
        else if kaType == "array" then EMPTY_ARRAY
        else "None")
  }

  /** The text for a default other than "null", on an integer type or another one. */
  function ExplicitText(integer: bool, d: string): Option<string> {
    if integer && StartsWith(d, "0x") then
      if IsHex(d[2..]) then Some(Decimal.Digits(HexValue(d[2..]))) else None
    else if integer && !IsDecimal(d) && !IsSigned(d) then None
    else if integer && IsNegative(d) then Some("(" + d + ")")
    else if d == "false" then Some("False")
    else if d == "true" then Some("True")
    else Some(d)
  }

  predicate IsDecimal(s: string) {
    s != "" && forall i :: 0 <= i < |s| ==> '0' <= s[i] <= '9'
  }

  predicate IsHex(s: string) {
    s != "" && forall i :: 0 <= i < |s| ==> '0' <= s[i] <= '9' || 'a' <= s[i] <= 'f' || 'A' <= s[i] <= 'F'
  }

  /** The integer a schema's default denotes: decimal, negative decimal or hex. */
  function SchemaInt(d: string): Option<int> {
    if StartsWith(d, "0x") then if IsHex(d[2..]) then Some(HexValue(d[2..])) else None
    else if IsDecimal(d) then Some(Decimal.Value(d))
    else if IsSigned(d) then Some(0 - Decimal.Value(d[1..]))
    else None
  }

  predicate IsSigned(d: string) {
    d != "" && d[0] == '-' && IsDecimal(d[1..])
  }

  // ------------------------------------------------ what the text denotes

  /** The integer a Haskell expression of literals denotes. */
  function HaskellInt(s: string): Option<int> {
    if |s| > 2 && s[0] == '(' && s[|s| - 1] == ')' && IsSigned(s[1..|s| - 1]) then
      Some(0 - Decimal.Value(s[2..|s| - 1]))
    else SchemaInt(s)
  }

  /** Digits, or digits on both sides of a point. */
  ghost predicate IsPointed(s: string, k: nat) {
    k < |s| && s[k] == '.' && IsDecimal(s[..k]) && IsDecimal(s[k + 1..])
  }

  ghost function UnsignedReal(s: string): Option<real> {
    if IsDecimal(s) then Some(Decimal.Value(s) as real)
    else if exists k: nat :: IsPointed(s, k) then
      var k: nat :| IsPointed(s, k);
      Some(Decimal.Value(s[..k] + s[k + 1..]) as real / Decimal.Pow10(|s| - k - 1) as real)
    else None
  }

  /** The number a decimal literal denotes, in Haskell as in a schema. */
  ghost function DecimalReal(s: string): Option<real> {
    if s != "" && s[0] == '-' then
      match UnsignedReal(s[1..])
      case Some(r) => Some(0.0 - r)
      case None => None
    else UnsignedReal(s)
  }

  /** A Haskell string literal without escapes. */
  predicate IsStringLiteral(s: string) {
    && |s| >= 2 && s[0] == '"' && s[|s| - 1] == '"'
    && forall i :: 0 < i < |s| - 1 ==> s[i] != '"' && s[i] != '\\' && s[i] != '\n'
  }

  function Bits(ty: HsType): (p: nat)
    ensures p > 0
  {
    match ty
    case Int8 => 0x100
    case Int32 => 0x1_0000_0000
    case Int64 => 0x1_0000_0000_0000_0000
    case _ => 0x1_0000
  }

  /** An integer literal at a fixed-width type. */
  function Wrapped(ty: HsType, n: int): int {
    var m := n % Bits(ty);
    if m < Bits(ty) / 2 then m else m - Bits(ty)
  }

  predicate InWidth(ty: HsType, n: int) {
    -(Bits(ty) / 2) <= n < Bits(ty) / 2
  }

  predicate IsIntType(ty: HsType) {
    ty.Int8? || ty.Int16? || ty.Int32? || ty.Int64?
  }

  /** Types with string literals: Text, ByteString and the newtypes deriving IsString. */
  predicate HasLiterals(ty: HsType) {
    ty.Text? || ty.CompactString? || ty.ByteString? || ty.CompactBytes?
  }

  /** The types that are a Maybe themselves, not a newtype around one. */
  predicate IsMaybe(ty: HsType) {
    ty.NullableString? || ty.NullableBytes?
  }

  /** The value of an emitted text where the field has type ty. */
  ghost function Denotes(ty: HsType, text: string): Value {
    if IsIntType(ty) || ty.ErrorCode? || ty.ApiKey? then
      match HaskellInt(text)
      case Some(n) => IntValue(Wrapped(ty, n))
      case None => Undefined
    else if ty.Double? then
      match DecimalReal(text)
      case Some(r) => DoubleValue(r)
      case None => Undefined
    else if ty.Bool? && text == "True" then BoolValue(true)
    else if ty.Bool? && text == "False" then BoolValue(false)
    else if HasLiterals(ty) && IsStringLiteral(text) then StrValue(text[1..|text| - 1])
    else if IsMaybe(ty) && text == "Nothing" then Nothing
    else if ty.KaArray? && text == EMPTY_ARRAY then Array([])
    else Undefined
  }

  ghost function DefaultValue(ty: HsType, kaType: string, default: Option<string>): Value {
    match DefaultText(kaType, default)
    case Some(text) => Denotes(ty, text)
    case None => Undefined
  }

  // ------------------------------------------------ what the schema means

  predicate IsText(ty: HsType) {
    ty.Text? || ty.NullableString? || ty.CompactString? || ty.CompactNullableString?
  }

  predicate IsBytes(ty: HsType) {
    ty.ByteString? || ty.NullableBytes? || ty.CompactBytes? || ty.CompactNullableBytes?
  }

  predicate IsArray(ty: HsType) {
    ty.KaArray? || ty.CompactKaArray?
  }

  predicate IsNullableString(ty: HsType) {
    ty.NullableString? || ty.CompactNullableString?
  }

  predicate IsNullable(ty: HsType) {
    IsNullableString(ty) || ty.NullableBytes? || ty.CompactNullableBytes? || ty.RecordBytes? || IsArray(ty)
  }

  /** A field's default as the schema means it, if its text is a default of the type.
      Without one it is zero, false or empty, and null for a nullable string. */
  ghost function SchemaDefault(ty: HsType, default: Option<string>): Option<Value> {
    match default
    case None =>
      Some(
        if IsIntType(ty) || ty.ErrorCode? || ty.ApiKey? then IntValue(0)
        else if ty.Double? then DoubleValue(0.0)
        else if ty.Bool? then BoolValue(false)
        else if IsNullableString(ty) || ty.RecordBytes? then Nothing
        else if IsText(ty) || IsBytes(ty) then StrValue("")
        else if IsArray(ty) then Array([])
        else EmptyTaggedFields)
    case Some(d) =>
      if d == "null" then if IsNullable(ty) then Some(Nothing) else None
      else if IsIntType(ty) || ty.ErrorCode? || ty.ApiKey? then
        match SchemaInt(d)
        case Some(n) => if InWidth(ty, n) then Some(IntValue(n)) else None
        case None => None
      else if ty.Double? then
        match DecimalReal(d)
        case Some(r) => Some(DoubleValue(r))
        case None => None
      else if ty.Bool? then
        if d == "true" then Some(BoolValue(true)) else if d == "false" then Some(BoolValue(false)) else None
      else if IsText(ty) || IsBytes(ty) then Some(StrValue(d))
      else None
  }

  /** When the generated code gives an absent field the default its schema means. */
  predicate Survives(ty: HsType, default: Option<string>) {
    match ty
    case Int8 | Int16 | Int32 | Int64 | Bool => true
    case ErrorCode | ApiKey | Double => default.Some?
    case Text | CompactString | ByteString | CompactBytes | KaArray => default.None?
    case NullableString | NullableBytes => default == Some("null")
    case _ => false
  }

  /** A text default that happens to be an expression of the type, with another value. */
  predicate Misread(ty: HsType, default: Option<string>) {
    default.Some? &&
    ((HasLiterals(ty) && IsStringLiteral(default.value)) || (IsMaybe(ty) && default.value == "Nothing"))
  }

  // ------------------------------------------------ integers

  lemma {:induction false} ZeroDigits(s: string)
    requires IsDecimal(s)
    ensures Decimal.Value(s) == 0 <==> forall i :: 0 <= i < |s| ==> s[i] == '0'
  {
    if |s| > 1 {
      ZeroDigits(s[..|s| - 1]);
    } else {
      assert s[..0] == "";
      assert Decimal.Value(s) == Decimal.DigitValue(s[0]);
    }
  }

  /** The sign and some digit other than zero make up Python's test for a negative. */
  lemma IsNegativeIff(d: string)
    requires IsDecimal(d) || IsSigned(d)
    ensures SchemaInt(d).Some? && (IsNegative(d) <==> SchemaInt(d).value < 0)
  {
    if IsSigned(d) {
      var t := d[1..];
      SignedMeans(d);
      ZeroDigits(t);
      assert forall i :: 0 <= i < |t| ==> t[i] == d[i + 1];
      assert IsNegative(d) <==> exists i :: 0 <= i < |t| && t[i] != '0' by {
        if IsNegative(d) {
          var i :| 0 < i < |d| && '1' <= d[i] <= '9';
          assert t[i - 1] != '0';
        }
        if i :| 0 <= i < |t| && t[i] != '0' {
          assert '1' <= d[i + 1] <= '9';
        }
      }
    } else {
      DecimalMeans(d);
      assert d[0] != '-';
    }
  }

  lemma {:induction false} DigitsAreDecimal(n: nat)
    ensures IsDecimal(Decimal.Digits(n))
  {
    if n >= 10 {
      DigitsAreDecimal(n / 10);
    }
  }

  lemma WrappedInWidth(ty: HsType, n: int)
    requires InWidth(ty, n)
    ensures Wrapped(ty, n) == n
  {
    SmallRemainder(n, Bits(ty));
  }

  lemma SmallRemainder(n: int, p: nat)
    requires p > 0 && 0 <= n + p && n < p
    ensures n % p == if n >= 0 then n else n + p
  {
  }

  /** Parentheses do not change the number inside. */
  lemma ParenthesesMean(d: string)
    requires IsSigned(d)
    ensures HaskellInt("(" + d + ")") == Some(0 - Decimal.Value(d[1..]))
  {
    var s := "(" + d + ")";
    assert s[0] == '(' && s[|s| - 1] == ')' && |s| > 2;
    assert s[1..|s| - 1] == d && s[2..|s| - 1] == d[1..];
  }

  lemma SignedMeans(d: string)
    requires IsSigned(d)
    ensures SchemaInt(d) == Some(0 - Decimal.Value(d[1..])) == HaskellInt(d)
  {
    assert d[0] != "0x"[0] && !IsDecimal(d);
  }

  lemma DecimalMeans(d: string)
    requires IsDecimal(d)
    ensures !StartsWith(d, "0x") && SchemaInt(d) == Some(Decimal.Value(d)) == HaskellInt(d)
  {
    assert |d| > 1 ==> d[1] != "0x"[1];
    assert d[0] != '(';
  }

  lemma HexMeans(d: string)
    requires StartsWith(d, "0x") && IsHex(d[2..])
    ensures SchemaInt(d) == Some(HexValue(d[2..])) == HaskellInt(d)
    ensures HaskellInt(Decimal.Digits(HexValue(d[2..]))) == Some(HexValue(d[2..]))
  {
    var n := HexValue(d[2..]);
    Decimal.ValueOfDigits(n);
    DigitsAreDecimal(n);
    DecimalMeans(Decimal.Digits(n));
    assert d[0] == "0x"[0];
  }

  /** The first character tells a number from the words with a meaning of their own. */
  lemma NumberIsNoWord(d: string)
    requires SchemaInt(d).Some?
    ensures d != "null" && d != "false" && d != "true"
  {
    assert d[0] == '-' || '0' <= d[0] <= '9' by {
      if StartsWith(d, "0x") {
        assert d[0] == "0x"[0];
      }
    }
    assert "null"[0] == 'n' && "false"[0] == 'f' && "true"[0] == 't';
  }

  /** The text emitted for an integer default, on an integer type or on one the
      generator takes for another, denotes the schema's integer. */
  lemma IntDefaultMeaning(integer: bool, d: string)
    requires SchemaInt(d).Some?
    ensures ExplicitText(integer, d).Some? && HaskellInt(ExplicitText(integer, d).value) == SchemaInt(d)
  {
    NumberIsNoWord(d);
    if StartsWith(d, "0x") {
      HexMeans(d);
    } else if IsDecimal(d) {
      DecimalMeans(d);
      assert d[0] != '-';
    } else {
      SignedMeans(d);
      ParenthesesMean(d);
    }
  }

  /** The exact text: negative numbers in parentheses, hexadecimal ones in decimal
      digits, others as they stand. */
  lemma IntText(d: string)
    requires SchemaInt(d).Some?
    ensures var n := SchemaInt(d).value;
            ExplicitText(true, d) ==
            Some(if n < 0 then "(" + d + ")" else if StartsWith(d, "0x") then Decimal.Digits(n) else d)
  {
    NumberIsNoWord(d);
    if StartsWith(d, "0x") {
      HexMeans(d);
    } else {
      IsNegativeIff(d);
    }
  }

  function HexChar(n: nat): char
    requires n < 16
  {
    if n < 10 then '0' + n as char else 'a' + (n - 10) as char
  }

  lemma HexCharReads(n: nat)
    requires n < 16
    ensures HexDigit(HexChar(n)) == n && IsHex([HexChar(n)])
  {
  }

  lemma HexLast(s: string, c: char)
    ensures HexValue(s + [c]) == 16 * HexValue(s) + HexDigit(c)
    ensures IsHex(s) && IsHex([c]) ==> IsHex(s + [c])
  {
    assert (s + [c])[..|s|] == s;
    assert [c][0] == c;
  }

  /** The hexadecimal digits of n, most significant first. */
  function HexDigits(n: nat): string {
    if n < 16 then [HexChar(n)] else HexDigits(n / 16) + [HexChar(n % 16)]
  }

  /** Hexadecimal digits are read as the number they were printed from. */
  lemma {:induction false} HexReadsBack(n: nat)
    ensures IsHex(HexDigits(n)) && HexValue(HexDigits(n)) == n
  {
    HexCharReads(n % 16);
    if n < 16 {
      assert [HexChar(n)] == "" + [HexChar(n)];
      HexLast("", HexChar(n));
    } else {
      HexReadsBack(n / 16);
      HexLast(HexDigits(n / 16), HexChar(n % 16));
    }
  }

  /** The integer types hold 8, 16, 32 and 64 bits; error codes and API keys 16. */
  lemma Widths(n: int)
    ensures InWidth(Int8, n) <==> -0x80 <= n < 0x80
    ensures InWidth(Int16, n) <==> -0x8000 <= n < 0x8000
    ensures InWidth(ErrorCode, n) <==> -0x8000 <= n < 0x8000
    ensures InWidth(ApiKey, n) <==> -0x8000 <= n < 0x8000
    ensures InWidth(Int32, n) <==> -0x8000_0000 <= n < 0x8000_0000
    ensures InWidth(Int64, n) <==> -0x8000_0000_0000_0000 <= n < 0x8000_0000_0000_0000
  {
  }

  // ------------------------------------------------ when the default survives

  /** The Kafka type behind a Haskell type. */
  function KaName(ty: HsType): string {
    match ty
    case Int8 => "int8"
    case Int16 => "int16"
    case Int32 => "int32"
    case Int64 => "int64"
    case Double => "float64"
    case Bool => "bool"
    case ErrorCode => "errorCode"
    case ApiKey => "apiKey"
    case Text | NullableString | CompactString | CompactNullableString => "string"
    case ByteString | NullableBytes | CompactBytes | CompactNullableBytes => "bytes"
    case RecordBytes => "records"
    case KaArray | CompactKaArray => "array"
    case TaggedFields => "TaggedFields"
  }

  ghost predicate TypedAs(kaType: string, ty: HsType) {
    kaType == KaName(ty) && !ty.TaggedFields?
  }

  lemma WrapperIsTyped(kaType: string, flexible: bool, nullable: bool)
    requires Wrapper(kaType, flexible, nullable).Some?
    ensures TypedAs(kaType, Wrapper(kaType, flexible, nullable).value)
  {
  }

  /** The generator's tests on the Kafka type, in terms of the Haskell type. */
  lemma KindOfType(kaType: string, ty: HsType)
    requires TypedAs(kaType, ty)
    ensures StartsWith(kaType, "int") <==> IsIntType(ty)
    ensures kaType == "string" <==> IsText(ty)
    ensures kaType == "bytes" <==> IsBytes(ty)
    ensures kaType == "bool" <==> ty.Bool?
    ensures kaType == "records" <==> ty.RecordBytes?
    ensures kaType == "array" <==> IsArray(ty)
    ensures kaType != "float"
  {
    IntNames();
    NamesDiffer(ty);
  }

  lemma NamesDiffer(ty: HsType)
    requires !ty.TaggedFields?
    ensures KaName(ty) == "string" ==> IsText(ty)
    ensures KaName(ty) == "bytes" ==> IsBytes(ty)
    ensures KaName(ty) == "bool" ==> ty.Bool?
    ensures KaName(ty) == "records" ==> ty.RecordBytes?
    ensures KaName(ty) == "array" ==> IsArray(ty)
    ensures KaName(ty) != "float"
  {
    var n := KaName(ty);
    assert n[0] == 's' <==> IsText(ty);
    assert n[0] == 'r' <==> ty.RecordBytes?;
    assert n[0] == 'b' && n[1] == 'y' <==> IsBytes(ty);
    assert n[0] == 'b' && n[1] == 'o' <==> ty.Bool?;
    assert n[0] == 'a' && n[1] == 'r' <==> IsArray(ty);
    assert n[0] == 'f' ==> |n| == 7;
  }

  lemma IntNames()
    ensures StartsWith("int8", "int") && StartsWith("int16", "int")
    ensures StartsWith("int32", "int") && StartsWith("int64", "int")
    ensures !StartsWith("float64", "int") && !StartsWith("bool", "int")
    ensures !StartsWith("errorCode", "int") && !StartsWith("apiKey", "int")
    ensures !StartsWith("string", "int") && !StartsWith("bytes", "int")
    ensures !StartsWith("records", "int") && !StartsWith("array", "int")
  {
    assert "float64"[0] != "int"[0] && "bool"[0] != "int"[0];
    assert "errorCode"[0] != "int"[0] && "apiKey"[0] != "int"[0];
    assert "string"[0] != "int"[0] && "bytes"[0] != "int"[0];
    assert "records"[0] != "int"[0] && "array"[0] != "int"[0];
  }

  /** Each text the generator makes up itself is an expression of one kind only. */
  lemma OwnTexts()
    ensures HaskellInt("0") == Some(0) && HaskellInt("None") == None && HaskellInt("Nothing") == None
    ensures DecimalReal("None") == None
    ensures IsStringLiteral(EMPTY_STRING) && EMPTY_STRING[1..1] == ""
    ensures !IsStringLiteral("Nothing") && !IsStringLiteral("True") && !IsStringLiteral("False")
    ensures EMPTY_STRING != "Nothing" && EMPTY_ARRAY != "Nothing" && "True" != "False"
  {
    assert IsDecimal("0") && Decimal.Value("0") == 0;
    assert "None"[0] == 'N' && "Nothing"[0] == 'N';
    assert EMPTY_STRING[0] == '"' && EMPTY_STRING[1] == '"' && EMPTY_ARRAY[0] == 'K';
    assert "True"[0] == 'T' && "False"[0] == 'F';
    forall k: nat
      ensures !IsPointed("None", k)
    {
      if k > 0 && k < 4 {
        assert "None"[..k][0] == 'N';
      }
    }
  }

  lemma NumericDefaultHoldsIff(ty: HsType, kaType: string, default: Option<string>)
    requires TypedAs(kaType, ty) && (IsIntType(ty) || ty.ErrorCode? || ty.ApiKey?)
    requires SchemaDefault(ty, default).Some?
    ensures DefaultValue(ty, kaType, default) ==
            if Survives(ty, default) then SchemaDefault(ty, default).value else Undefined
  {
    KindOfType(kaType, ty);
    OwnTexts();
    if default.Some? {
      IntDefaultMeaning(StartsWith(kaType, "int"), default.value);
      WrappedInWidth(ty, SchemaInt(default.value).value);
    } else {
      WrappedInWidth(ty, 0);
    }
  }

  lemma RealIsNoWord(d: string)
    requires DecimalReal(d).Some?
    ensures d != "null" && d != "false" && d != "true"
  {
    assert "null"[0] == 'n' && "false"[0] == 'f' && "true"[0] == 't';
    if d != "" && d[0] != '-' {
      assert '0' <= d[0] <= '9' by {
        if !IsDecimal(d) {
          var k: nat :| IsPointed(d, k);
          assert d[..k][0] == d[0];
        }
      }
    }
  }

  lemma DoubleDefaultHoldsIff(kaType: string, default: Option<string>)
    requires TypedAs(kaType, Double) && SchemaDefault(Double, default).Some?
    ensures DefaultValue(Double, kaType, default) ==
            if Survives(Double, default) then SchemaDefault(Double, default).value else Undefined
  {
    KindOfType(kaType, Double);
    OwnTexts();
    if default.Some? {
      RealIsNoWord(default.value);
    }
  }

  /** A text default is emitted as it stands, except for the two words. */
  lemma TextIsCopied(d: string)
    ensures ExplicitText(false, d) == Some(if d == "false" then "False" else if d == "true" then "True" else d)
  {
  }

  /** An unquoted text is never the string it should be. */
  lemma ExplicitTextDefault(ty: HsType, d: string)
    requires IsText(ty) || IsBytes(ty)
    ensures ExplicitText(false, d).Some?
    ensures Denotes(ty, ExplicitText(false, d).value) != StrValue(d)
    ensures Denotes(ty, ExplicitText(false, d).value) == Undefined <==> !Misread(ty, Some(d))
  {
    TextIsCopied(d);
    WordsAreNoText();
    if d == "false" {
      TextDenotes(ty, "False");
    } else if d == "true" {
      TextDenotes(ty, "True");
    } else {
      TextDenotes(ty, d);
    }
  }

  lemma WordsAreNoText()
    ensures forall w :: w in {"False", "True", "false", "true", "null"} ==> !IsStringLiteral(w) && w != "Nothing"
  {
    assert "False"[0] == 'F' && "True"[0] == 'T' && "false"[0] == 'f' && "true"[0] == 't' && "null"[0] == 'n';
    assert "Nothing"[0] == 'N';
  }

  lemma TextDenotes(ty: HsType, t: string)
    requires IsText(ty) || IsBytes(ty)
    ensures Denotes(ty, t) != StrValue(t)
    ensures Denotes(ty, t) == Undefined <==> !Misread(ty, Some(t))
  {
    if IsStringLiteral(t) {
      assert |t[1..|t| - 1]| < |t|;
    }
  }

  lemma TextDefault(ty: HsType, kaType: string, default: Option<string>)
    requires TypedAs(kaType, ty) && (IsText(ty) || IsBytes(ty)) && SchemaDefault(ty, default).Some?
    ensures DefaultValue(ty, kaType, default) == SchemaDefault(ty, default).value <==> Survives(ty, default)
    ensures DefaultValue(ty, kaType, default) == Undefined <==> !Survives(ty, default) && !Misread(ty, default)
  {
    KindOfType(kaType, ty);
    OwnTexts();
    if default.Some? && default.value != "null" {
      ExplicitTextDefault(ty, default.value);
    } else if default.Some? {
      WordsAreNoText();
    }
  }

  lemma BoolDefault(kaType: string, default: Option<string>)
    requires TypedAs(kaType, Bool) && SchemaDefault(Bool, default).Some?
    ensures DefaultValue(Bool, kaType, default) == SchemaDefault(Bool, default).value
  {
    KindOfType(kaType, Bool);
    OwnTexts();
    if default.Some? {
      assert "true"[0] != "null"[0] && "false"[0] != "null"[0] && "true"[0] != "false"[0];
    }
  }

  /** Of the types that are newtypes around a Maybe only the plain array has a text. */
  lemma NewtypeDefault(ty: HsType, kaType: string, default: Option<string>)
    requires TypedAs(kaType, ty) && (ty.RecordBytes? || IsArray(ty)) && SchemaDefault(ty, default).Some?
    ensures DefaultValue(ty, kaType, default) ==
            if Survives(ty, default) then SchemaDefault(ty, default).value else Undefined
  {
    KindOfType(kaType, ty);
    OwnTexts();
  }

  /** Whatever the schema means by a field's default, the code generated for a version
      without the field supplies it if and only if the default survives; otherwise the
      text is no expression of the type or, if misread, another value. */
  lemma DefaultHoldsIff(ty: HsType, kaType: string, default: Option<string>)
    requires TypedAs(kaType, ty) && SchemaDefault(ty, default).Some?
    ensures DefaultValue(ty, kaType, default) == SchemaDefault(ty, default).value <==> Survives(ty, default)
    ensures DefaultValue(ty, kaType, default) == Undefined <==> !Survives(ty, default) && !Misread(ty, default)
  {
    KindOfType(kaType, ty);
    if IsIntType(ty) || ty.ErrorCode? || ty.ApiKey? {
      NumericDefaultHoldsIff(ty, kaType, default);
    } else if ty.Double? {
      DoubleDefaultHoldsIff(kaType, default);
    } else if IsText(ty) || IsBytes(ty) {
      TextDefault(ty, kaType, default);
    } else if ty.Bool? {
      BoolDefault(kaType, default);
    } else {
      NewtypeDefault(ty, kaType, default);
    }
  }
}
