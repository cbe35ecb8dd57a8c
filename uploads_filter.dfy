/** The query parameters of the uploads listing (`GetUploadsFilterDto`):
    `skip` and `take` arrive as query strings, are converted with JavaScript's
    `Number.parseInt`, and are then range-checked; `search` must be a string. */
module UploadsFilter {
  import opened Common

  // ---------------------------------------------------------------------------
  // Number.parseInt(s) with no radix argument

  /** The characters `parseInt` skips before the number (JavaScript
      `StrWhiteSpaceChar`: white space and line terminators). */
  predicate IsJsWhitespace(c: char) {
    || c in {'\t', '\n', '\U{B}', '\U{C}', '\r', ' ', '\U{A0}', '\U{1680}', '\U{2028}',
             '\U{2029}', '\U{202F}', '\U{205F}', '\U{3000}', '\U{FEFF}'}
    || '\U{2000}' <= c <= '\U{200A}'
  }

  /** The value of `c` as a digit in bases up to 36, or 36 if it is none. */
  function DigitValue(c: char): (d: nat)
    ensures d <= 36
  {
    if '0' <= c <= '9' then c as nat - '0' as nat
    else if 'a' <= c <= 'z' then c as nat - 'a' as nat + 10
    else if 'A' <= c <= 'Z' then c as nat - 'A' as nat + 10
    else 36
  }

  predicate IsDigitIn(c: char, radix: nat) {
    DigitValue(c) < radix
  }

  function TrimLeadingWhitespace(s: string): (r: string)
    ensures |r| <= |s| && r == s[|s| - |r|..]
    ensures r != [] ==> !IsJsWhitespace(r[0])
    decreases |s|
  {
    if s != [] && IsJsWhitespace(s[0]) then TrimLeadingWhitespace(s[1..]) else s
  }

  /** The longest prefix of `s` made of digits of `radix`. */
  function DigitPrefix(s: string, radix: nat): (r: string)
    ensures r <= s
    ensures forall i :: 0 <= i < |r| ==> IsDigitIn(r[i], radix)
    ensures |r| < |s| ==> !IsDigitIn(s[|r|], radix)
    decreases |s|
  {
    if s != [] && IsDigitIn(s[0], radix) then [s[0]] + DigitPrefix(s[1..], radix) else []
  }

  /** The number a string of digits denotes in `radix`, most significant first. */
  function DigitsValue(ds: string, radix: nat): nat
    decreases |ds|
  {
    if ds == [] then 0
    else DigitsValue(ds[..|ds| - 1], radix) * radix + DigitValue(ds[|ds| - 1])
  }

  /** `Number.parseInt(s)`: `None` is NaN. Leading white space is skipped, one
      sign is taken, a `0x`/`0X` prefix selects base 16, and the longest run of
      digits that follows is read; anything after it is ignored. */
  function ParseInt(s: string): Option<int> {
    var t := TrimLeadingWhitespace(s);
    if t != [] && (t[0] == '-' || t[0] == '+') then
      match ParseUnsigned(t[1..])
      case None => None
      case Some(n) => Some(if t[0] == '-' then -(n as int) else n as int)
    else
      match ParseUnsigned(t)
      case None => None
      case Some(n) => Some(n)
  }

  /** The unsigned part: `0x`/`0X` selects base 16, otherwise base 10. */
  function ParseUnsigned(u: string): Option<nat> {
    var hex := |u| >= 2 && u[0] == '0' && (u[1] == 'x' || u[1] == 'X');
    var radix := if hex then 16 else 10;
    var ds := DigitPrefix(if hex then u[2..] else u, radix);
    if ds == [] then None else Some(DigitsValue(ds, radix))
  }

  /** Decimal rendering of an integer, as a query string carries it. */
  function DecimalDigits(n: nat): (r: string)
    ensures |r| >= 1
    ensures forall i :: 0 <= i < |r| ==> '0' <= r[i] <= '9'
    decreases n
  {
    if n < 10 then [('0' as nat + n) as char]
    else DecimalDigits(n / 10) + [('0' as nat + n % 10) as char]
  }

  function Decimal(n: int): string {
    if n < 0 then "-" + DecimalDigits(-n) else DecimalDigits(n)
  }

  lemma {:induction false} DecimalDigitsValue(n: nat)
    ensures DigitsValue(DecimalDigits(n), 10) == n
    decreases n
  {
    var r := DecimalDigits(n);
    if n >= 10 {
      DecimalDigitsValue(n / 10);
      assert r[..|r| - 1] == DecimalDigits(n / 10);
    }
  }

  lemma {:induction false} DigitPrefixOfDigits(ds: string, radix: nat)
    requires forall i :: 0 <= i < |ds| ==> IsDigitIn(ds[i], radix)
    ensures DigitPrefix(ds, radix) == ds
    decreases |ds|
  {
    if ds != [] {
      DigitPrefixOfDigits(ds[1..], radix);
      assert [ds[0]] + ds[1..] == ds;
    }
  }

  /** `parseInt` reads back every integer rendered in decimal. */
  lemma ParseUnsignedDecimal(m: nat)
    ensures ParseUnsigned(DecimalDigits(m)) == Some(m)
  {
    var ds := DecimalDigits(m);
    assert !(|ds| >= 2 && (ds[1] == 'x' || ds[1] == 'X'));
    DigitPrefixOfDigits(ds, 10);
    DecimalDigitsValue(m);
  }

  lemma ParseIntDecimal(n: int)
    ensures ParseInt(Decimal(n)) == Some(n)
  {
    var m: nat := if n < 0 then -n else n;
    var s := Decimal(n);
    assert !IsJsWhitespace(s[0]);
    assert TrimLeadingWhitespace(s) == s;
    ParseUnsignedDecimal(m);
    if n < 0 {
      assert s[1..] == DecimalDigits(m);
    }
  }

  // ---------------------------------------------------------------------------
  // The DTO and its validation

  /** The query as it arrives: each parameter absent or a string. */
  datatype RawFilter = RawFilter(skip: Option<string>, take: Option<string>, search: Option<string>)

  /** The DTO after transformation and validation. */
  datatype GetUploadsFilterDto = GetUploadsFilterDto(skip: Option<int>, take: Option<int>, search: Option<string>)
  {
    /** `skip` is an integer of at least 0, `take` an integer in [1, 10000]. */
    predicate Valid() {
      && (skip.Some? ==> skip.value >= 0)
      && (take.Some? ==> 1 <= take.value <= MaxTake)
    }
  }

  const MaxTake := 10000

  /** One failed decorator: the property and the constraint (`isInt`, `min`,
      `max`) it broke. */
  datatype Violation = Violation(property: string, constraint: string)

  datatype Validated = Accepted(dto: GetUploadsFilterDto) | Rejected(violations: set<Violation>)

  /** The constraints a present `skip` breaks; NaN fails `isInt` and `min`. */
  function SkipViolations(v: Option<int>): set<Violation> {
    match v
    case None => {Violation("skip", "isInt"), Violation("skip", "min")}
    case Some(n) => if n < 0 then {Violation("skip", "min")} else {}
  }

  /** The constraints a present `take` breaks; NaN fails all three. */
  function TakeViolations(v: Option<int>): set<Violation> {
    match v
    case None => {Violation("take", "isInt"), Violation("take", "min"), Violation("take", "max")}
    case Some(n) =>
      (if n < 1 then {Violation("take", "min")} else {})
      + (if n > MaxTake then {Violation("take", "max")} else {})
  }

  /** Transform then validate: an absent parameter is skipped (`IsOptional`),
      a present one is parsed and must meet its bounds. The request is
      rejected with every violation found. */
  function Validate(raw: RawFilter): (r: Validated)
    ensures r.Accepted? ==> r.dto.Valid() && r.dto.search == raw.search
    ensures r.Accepted? <==>
      && (raw.skip.Some? ==> ParseInt(raw.skip.value).Some? && ParseInt(raw.skip.value).value >= 0)
      && (raw.take.Some? ==> ParseInt(raw.take.value).Some? && 1 <= ParseInt(raw.take.value).value <= MaxTake)
    ensures r.Accepted? ==> (r.dto.skip.Some? <==> raw.skip.Some?) && (r.dto.take.Some? <==> raw.take.Some?)
    ensures r.Accepted? && raw.skip.Some? ==> r.dto.skip == Some(ParseInt(raw.skip.value).value)
    ensures r.Accepted? && raw.take.Some? ==> r.dto.take == Some(ParseInt(raw.take.value).value)
  {
    var skip := if raw.skip.Some? then Some(ParseInt(raw.skip.value)) else None;
    var take := if raw.take.Some? then Some(ParseInt(raw.take.value)) else None;
    var violations :=
      (if skip.Some? then SkipViolations(skip.value) else {})
      + (if take.Some? then TakeViolations(take.value) else {});
    if violations == {} then
      Accepted(GetUploadsFilterDto(
        if skip.Some? then Some(skip.value.value) else None,
        if take.Some? then Some(take.value.value) else None,
        raw.search))
    else Rejected(violations)
  }

  /** The query string a client sends for a DTO. */
  function Render(dto: GetUploadsFilterDto): RawFilter {
    RawFilter(
      if dto.skip.Some? then Some(Decimal(dto.skip.value)) else None,
      if dto.take.Some? then Some(Decimal(dto.take.value)) else None,
      dto.search)
  }

  /** Every valid DTO survives rendering to a query string and validation. */
  lemma ValidateRender(dto: GetUploadsFilterDto)
    requires dto.Valid()
    ensures Validate(Render(dto)) == Accepted(dto)
  {
    if dto.skip.Some? {
      ParseIntDecimal(dto.skip.value);
    }
    if dto.take.Some? {
      ParseIntDecimal(dto.take.value);
    }
  }
}
