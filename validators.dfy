/** The anchored string validators of src/is.ts and `isEmpty`/`isNoEmpty`.

    Each validator is a regular-expression test anchored at both ends. It is
    modelled twice: as a function that decides it by scanning the string, and
    as an independent description of the strings it accepts (the regular
    expression's own structure, or an arithmetic one), with a lemma proving
    the two agree. JavaScript's `\d` is the ASCII digits `0`-`9` and `$` is
    the end of the input. */
module Validators {

  // ----- character classes -----

  /** `\d`. */
  predicate IsDigit(c: char) {
    '0' <= c <= '9'
  }

  /** `[a-f0-9]` under the `i` flag. */
  predicate IsHexDigit(c: char) {
    IsDigit(c) || 'a' <= c <= 'f' || 'A' <= c <= 'F'
  }

  /** `[ \t\n\r]`. */
  predicate IsWs(c: char) {
    c == ' ' || c == '\t' || c == '\n' || c == '\r'
  }

  /** `\d*` matches the whole of `s`. */
  function AllDigits(s: string): (r: bool)
    ensures r <==> forall i :: 0 <= i < |s| ==> IsDigit(s[i])
  {
    if s == [] then true else IsDigit(s[0]) && AllDigits(s[1..])
  }

  /** `[a-f0-9]*` (case-insensitive) matches the whole of `s`. */
  function AllHex(s: string): (r: bool)
    ensures r <==> forall i :: 0 <= i < |s| ==> IsHexDigit(s[i])
  {
    if s == [] then true else IsHexDigit(s[0]) && AllHex(s[1..])
  }

  // ----- decimal numerals -----

  function DigitValue(c: char): nat
    requires IsDigit(c)
  {
    c as int - '0' as int
  }

  function DigitChar(d: nat): (c: char)
    requires d < 10
    ensures IsDigit(c) && DigitValue(c) == d
  {
    ('0' as int + d) as char
  }

  function Pow10(k: nat): (p: nat)
    ensures p >= 1
  {
    if k == 0 then 1 else 10 * Pow10(k - 1)
  }

  /** The number a digit string denotes, most significant digit first. */
  function Value(s: string): nat
    requires AllDigits(s)
    decreases |s|
  {
    if s == [] then 0 else Value(s[..|s| - 1]) * 10 + DigitValue(s[|s| - 1])
  }

  /** The canonical decimal numeral of `n`: no leading zero, `"0"` for zero. */
  function Decimal(n: nat): (s: string)
    ensures |s| > 0 && AllDigits(s)
    ensures s[0] == '0' <==> n == 0
    ensures n == 0 ==> s == "0"
  {
    if n < 10 then [DigitChar(n)] else Decimal(n / 10) + [DigitChar(n % 10)]
  }

  /** A numeral with no leading zero (or the single digit `0`). */
  predicate Canonical(s: string) {
    |s| > 0 && AllDigits(s) && (s[0] == '0' ==> |s| == 1)
  }

  lemma {:induction false} ValueOfDecimal(n: nat)
    ensures Value(Decimal(n)) == n
  {
    if n >= 10 {
      ValueOfDecimal(n / 10);
      var s := Decimal(n);
      assert s[..|s| - 1] == Decimal(n / 10);
    }
  }

  lemma {:induction false} ValuePositive(s: string)
    requires Canonical(s) && s[0] != '0'
    ensures Value(s) > 0
    decreases |s|
  {
    if |s| > 1 {
      var t := s[..|s| - 1];
      assert t[0] == s[0];
      ValuePositive(t);
    }
  }

  /** Every canonical numeral is the decimal rendering of the number it
      denotes. */
  lemma {:induction false} DecimalOfValue(s: string)
    requires Canonical(s)
    ensures Decimal(Value(s)) == s
    decreases |s|
  {
    if |s| > 1 {
      var t := s[..|s| - 1];
      assert t[0] == s[0];
      if s[0] == '0' {
        assert false;
      }
      ValuePositive(t);
      DecimalOfValue(t);
      var d := DigitValue(s[|s| - 1]);
      assert Value(s) / 10 == Value(t) && Value(s) % 10 == d;
      assert DigitChar(d) == s[|s| - 1];
      assert s == t + [s[|s| - 1]];
    } else {
      assert s[..0] == [];
      assert Value(s) == DigitValue(s[0]);
      assert s == [DigitChar(Value(s))];
    }
  }

  lemma {:induction false} ValueAppend(a: string, b: string)
    requires AllDigits(a) && AllDigits(b)
    ensures AllDigits(a + b) && Value(a + b) == Value(a) * Pow10(|b|) + Value(b)
    decreases |b|
  {
    if b != [] {
      var b' := b[..|b| - 1];
      var c := b[|b| - 1];
      assert (a + b)[..|a + b| - 1] == a + b' && (a + b)[|a + b| - 1] == c;
      ValueAppend(a, b');
      assert Value(a + b) == Value(a + b') * 10 + DigitValue(c);
      assert Value(b) == Value(b') * 10 + DigitValue(c);
      ShiftDigit(Value(a), Pow10(|b'|), Value(b'), DigitValue(c));
    } else {
      assert a + b == a;
    }
  }

  lemma ShiftDigit(x: int, p: int, y: int, d: int)
    ensures (x * p + y) * 10 + d == x * (10 * p) + (y * 10 + d)
  {
  }

  lemma {:induction false} ValueBound(s: string)
    requires AllDigits(s)
    ensures Value(s) < Pow10(|s|)
    decreases |s|
  {
    if s != [] {
      ValueBound(s[..|s| - 1]);
    }
  }

  // ----- isDigits and isPercentage -----

  /** `isDigits`: `/^\d+$/`. */
  function IsDigits(s: string): bool {
    |s| > 0 && AllDigits(s)
  }

  /** The digit strings are exactly the renderings of natural numbers with
      any number of leading zeros. */
  lemma DigitsAreNumerals(s: string)
    ensures IsDigits(s) <==> exists z: nat, n: nat :: s == Zeros(z) + Decimal(n)
  {
    if IsDigits(s) {
      var z := LeadingZeros(s);
      var rest := s[z..];
      if rest == [] {
        ZerosSplit(s, z);
        var z': nat := z - 1;
        assert s == Zeros(z') + Decimal(0);
      } else {
        ZerosPrefix(s, z);
        DecimalOfValue(rest);
        assert s == Zeros(z) + Decimal(Value(rest));
      }
    }
    forall z: nat, n: nat | s == Zeros(z) + Decimal(n) ensures IsDigits(s) {
      var d := Decimal(n);
      forall i | 0 <= i < |s| ensures IsDigit(s[i]) {
        if i >= z { assert s[i] == d[i - z]; }
      }
    }
  }

  function Zeros(z: nat): (s: string)
    ensures |s| == z && forall i :: 0 <= i < z ==> s[i] == '0'
  {
    if z == 0 then [] else Zeros(z - 1) + ['0']
  }

  /** The number of leading `0`s of `s`. */
  function LeadingZeros(s: string): (z: nat)
    ensures z <= |s| && (forall i :: 0 <= i < z ==> s[i] == '0') && (z < |s| ==> s[z] != '0')
  {
    if s != [] && s[0] == '0' then 1 + LeadingZeros(s[1..]) else 0
  }

  lemma ZerosPrefix(s: string, z: nat)
    requires IsDigits(s) && z == LeadingZeros(s) && z < |s|
    ensures s == Zeros(z) + s[z..] && Canonical(s[z..])
  {
    assert s[..z] == Zeros(z);
    assert s == s[..z] + s[z..];
  }

  lemma ZerosSplit(s: string, z: nat)
    requires IsDigits(s) && z == LeadingZeros(s) && z == |s|
    ensures z > 0 && s == Zeros(z - 1) + "0"
  {
    assert s == Zeros(z);
    assert Zeros(z) == Zeros(z - 1) + "0";
  }

  /** `isPercentage`: `/^(?:0|[1-9]\d*)%$/`. */
  function IsPercentage(s: string): bool {
    && |s| >= 2 && s[|s| - 1] == '%'
    && var d := s[..|s| - 1];
       d == "0" || ('1' <= d[0] <= '9' && AllDigits(d[1..]))
  }

  /** The accepted strings are exactly a natural number in canonical decimal
      followed by `%`: `"0%"`, `"50%"`, but not `"05%"` or `"100"`. */
  lemma PercentageIsCanonical(s: string)
    ensures IsPercentage(s) <==> exists n: nat :: s == Decimal(n) + "%"
  {
    if IsPercentage(s) {
      var d := s[..|s| - 1];
      assert Canonical(d);
      DecimalOfValue(d);
      assert s == Decimal(Value(d)) + "%";
    }
  }

  // ----- isPhoneNo -----

  /** `isPhoneNo`: `/^1[3-9]\d{9}$/`. */
  function IsPhoneNo(s: string): bool {
    |s| == 11 && s[0] == '1' && '3' <= s[1] <= '9' && AllDigits(s[2..])
  }

  /** A phone number is an eleven-digit numeral whose value lies between
      13000000000 and 19999999999. */
  lemma PhoneNoAsNumber(s: string)
    ensures IsPhoneNo(s) <==> |s| == 11 && AllDigits(s) && 13000000000 <= Value(s) < 20000000000
  {
    if |s| == 11 && AllDigits(s) {
      var head, tail := s[..2], s[2..];
      assert s == head + tail;
      ValueAppend(head, tail);
      ValueBound(tail);
      TwoDigits(head);
      Pow10Nine();
      LeadingPair(Value(head), Value(tail));
    }
  }

  lemma TwoDigits(s: string)
    requires |s| == 2 && AllDigits(s)
    ensures Value(s) == DigitValue(s[0]) * 10 + DigitValue(s[1])
  {
    var p := s[..1];
    assert p[..0] == [] && p[0] == s[0];
    assert Value(p) == DigitValue(s[0]);
    assert s[..|s| - 1] == p;
  }

  lemma Pow10Nine()
    ensures Pow10(9) == 1000000000
  {
    assert Pow10(3) == 1000;
    assert Pow10(6) == 1000 * Pow10(3);
  }

  /** A value with nine digits below the leading pair lies in the phone
      range exactly when the leading pair is 13 to 19. */
  lemma LeadingPair(h: int, t: int)
    requires 0 <= t < 1000000000
    ensures 13000000000 <= h * 1000000000 + t < 20000000000 <==> 13 <= h < 20
  {
    if h >= 20 {
      assert h * 1000000000 >= 20 * 1000000000;
    } else if h <= 12 {
      assert h * 1000000000 <= 12 * 1000000000;
    }
  }

  // ----- isHexColor -----

  /** `isHexColor`: `/^#?(?:[a-f0-9]{6}|[a-f0-9]{3})$/i`, taking the `#` when
      it is there. */
  function IsHexColor(s: string): bool {
    var body := if |s| > 0 && s[0] == '#' then s[1..] else s;
    (|body| == 6 || |body| == 3) && AllHex(body)
  }

  /** The pattern with its optional `#` spelled out as an alternative: the
      scan's choice to take a leading `#` loses nothing, because `#` is not a
      hex digit. */
  lemma HexColorPattern(s: string)
    ensures IsHexColor(s) <==>
      || ((|s| == 6 || |s| == 3) && AllHex(s))
      || (|s| > 0 && s[0] == '#' && (|s| == 7 || |s| == 4) && AllHex(s[1..]))
  {
    if |s| > 0 && s[0] == '#' {
      assert !IsHexDigit(s[0]);
    }
  }

  /** Examples: three or six hex digits, with or without `#`. */
  lemma HexColorExamples()
    ensures IsHexColor("#fff") && IsHexColor("123ABC") && !IsHexColor("#abcd")
  {
    assert "#fff"[1..] == "fff";
    assert "#abcd"[1..] == "abcd";
  }

  /** Examples for `isPhoneNo`. */
  lemma PhoneNoExamples()
    ensures IsPhoneNo("13812345678") && !IsPhoneNo("12812345678")
  {
    assert "13812345678"[2..] == "812345678";
  }

  /** Examples for `isDigits` and `isPercentage`. */
  lemma NumeralExamples()
    ensures IsDigits("12345") && !IsDigits("12a45")
    ensures IsPercentage("0%") && !IsPercentage("05%") && !IsPercentage("100")
  {
    assert !IsDigit("12a45"[2]);
    assert "0%"[..1] == "0";
    assert "05%"[..2] == "05";
  }

  // ----- isNumber -----

  /** Position of the first `c` in `s`, or `|s|`. */
  function IndexOf(s: string, c: char): (i: nat)
    ensures i <= |s| && (i < |s| ==> s[i] == c) && forall j :: 0 <= j < i ==> s[j] != c
  {
    if s == [] then 0 else if s[0] == c then 0 else 1 + IndexOf(s[1..], c)
  }

  /** `(?:,\d{3})*` matches the whole of `t`, read group by group. */
  function IsGroups(t: string): (r: bool)
    ensures r <==> GroupsShape(t)
    decreases |t|
  {
    if t == [] then true
    else |t| >= 4 && t[0] == ',' && AllDigits(t[1..4]) && IsGroups(t[4..])
  }

  /** The shape of `(?:,\d{3})*`: a comma at every fourth position from the
      start and digits everywhere else. */
  ghost predicate GroupsShape(t: string) {
    |t| % 4 == 0 && forall j :: 0 <= j < |t| ==> if j % 4 == 0 then t[j] == ',' else IsDigit(t[j])
  }

  /** `\d{1,3}(?:,\d{3})+`: the leading group ends at the first comma. */
  function IsGrouped(p: string): bool {
    var k := IndexOf(p, ',');
    1 <= k <= 3 && |p| >= k + 4 && AllDigits(p[..k]) && IsGroups(p[k..])
  }

  /** `isNumber`: `/^(?:-?\d+|-?\d{1,3}(?:,\d{3})+)(?:\.\d+)?$/`, decided by
      dropping a leading `-` and splitting at the first `.`. */
  function IsNumber(s: string): bool {
    var t := if |s| > 0 && s[0] == '-' then s[1..] else s;
    var d := IndexOf(t, '.');
    var ip, fp := t[..d], t[d..];
    && (IsDigits(ip) || IsGrouped(ip))
    && (fp == [] || (|fp| >= 2 && AllDigits(fp[1..])))
  }

  /** The regular expression's own structure: an optional sign, an integer
      part that is a digit run or grouped by commas, and an optional
      fraction. */
  ghost predicate NumberPattern(s: string) {
    exists i, j :: 0 <= i <= j <= |s| && NumberParts(s, i, j)
  }

  ghost predicate NumberParts(s: string, i: nat, j: nat)
    requires i <= j <= |s|
  {
    && (s[..i] == [] || s[..i] == "-")
    && (IsDigits(s[i..j]) || GroupedShape(s[i..j]))
    && (s[j..] == [] || (|s[j..]| >= 2 && s[j] == '.' && AllDigits(s[j + 1..])))
  }

  /** `\d{1,3}(?:,\d{3})+`: one to three digits, then one or more groups. */
  ghost predicate GroupedShape(p: string) {
    exists k :: 1 <= k <= 3 && |p| >= k + 4 && AllDigits(p[..k]) && GroupsShape(p[k..])
  }

  lemma GroupedAgree(p: string)
    ensures IsGrouped(p) <==> GroupedShape(p)
  {
    if GroupedShape(p) {
      var k :| 1 <= k <= 3 && |p| >= k + 4 && AllDigits(p[..k]) && GroupsShape(p[k..]);
      assert p[k] == p[k..][0] == ',';
      assert forall j :: 0 <= j < k ==> p[j] == p[..k][j];
      assert IndexOf(p, ',') == k;
    }
  }

  /** Neither an integer part nor a fraction contains a `.`, and an integer
      part never starts with `-`. */
  lemma IntPartNoDot(p: string)
    requires IsDigits(p) || GroupedShape(p)
    ensures IndexOf(p, '.') == |p| && p[0] != '-'
  {
    if GroupedShape(p) {
      var k :| 1 <= k <= 3 && |p| >= k + 4 && AllDigits(p[..k]) && GroupsShape(p[k..]);
      forall j | 0 <= j < |p| ensures p[j] != '.' {
        if j < k { assert p[j] == p[..k][j]; } else { assert p[j] == p[k..][j - k]; }
      }
      assert p[0] == p[..k][0];
    }
  }

  /** The scan accepts exactly the strings the pattern describes. */
  lemma NumberAgree(s: string)
    ensures IsNumber(s) <==> NumberPattern(s)
  {
    if IsNumber(s) {
      NumberSound(s);
    }
    if NumberPattern(s) {
      var i, j :| 0 <= i <= j <= |s| && NumberParts(s, i, j);
      NumberComplete(s, i, j);
    }
  }

  lemma NumberSound(s: string)
    requires IsNumber(s)
    ensures NumberPattern(s)
  {
    var i := if |s| > 0 && s[0] == '-' then 1 else 0;
    var t := s[i..];
    var d := IndexOf(t, '.');
    GroupedAgree(t[..d]);
    assert s[..i] == [] || s[..i] == "-";
    assert s[i..i + d] == t[..d] && s[i + d..] == t[d..];
    assert NumberParts(s, i, i + d);
  }

  lemma NumberComplete(s: string, i: nat, j: nat)
    requires i <= j <= |s| && NumberParts(s, i, j)
    ensures IsNumber(s)
  {
    var p := s[i..j];
    IntPartNoDot(p);
    SignLength(s, i, j);
    var t := s[i..];
    assert t == p + s[j..];
    IndexOfAppend(p, s[j..], '.');
    assert t[..|p|] == p && t[|p|..] == s[j..];
    GroupedAgree(p);
  }

  /** The sign the scan drops is the one the pattern allows. */
  lemma SignLength(s: string, i: nat, j: nat)
    requires i <= j <= |s| && NumberParts(s, i, j)
    requires s[i..j][0] != '-'
    ensures i == if |s| > 0 && s[0] == '-' then 1 else 0
  {
    if i == 0 && |s| > 0 {
      assert s[i..j][0] == s[0];
    } else if i == 1 {
      assert s[..i][0] == s[0];
    }
  }

  lemma IndexOfAppend(p: string, r: string, c: char)
    requires IndexOf(p, c) == |p| && (r == [] || r[0] == c)
    ensures IndexOf(p + r, c) == |p|
  {
    var t := p + r;
    assert forall m :: 0 <= m < |p| ==> t[m] == p[m];
    assert r != [] ==> t[|p|] == r[0];
  }

  /** Examples: a grouped integer part with a fraction is accepted. */
  lemma GroupedExample()
    ensures IsNumber("-1,234.56")
  {
    var t := "1,234.56";
    assert IndexOf(t, '.') == 5 by {
      assert t[0] == '1' && t[1] == ',' && t[2] == '2' && t[3] == '3' && t[4] == '4' && t[5] == '.';
    }
    var p := t[..5];
    assert p == "1,234";
    assert IndexOf(p, ',') == 1 by { assert p[0] == '1' && p[1] == ','; }
    assert p[1..] == ",234";
    assert IsGroups(p[1..][4..]) by { assert p[1..][4..] == []; }
  }

  /** Example: a grouping that stops short of three digits is rejected. */
  lemma IncompleteGroupExample()
    ensures !IsNumber("1,23")
  {
    var t := "1,23";
    assert IndexOf(t, '.') == 4;
    assert t[..4] == t;
    assert !IsDigit(t[1]);
    assert IndexOf(t, ',') == 1 by { assert t[0] == '1' && t[1] == ','; }
  }

  // ----- isDef, isEmpty, isNoEmpty -----

  datatype Option<T> = None | Some(value: T)

  /** The values `isDef` and `isEmpty` tell apart. Numbers are the integers
      (no NaN, no fractions); an object is seen through its `length`
      property when that is a number, and the string keys a `for ... in`
      loop visits (own and inherited enumerable ones).

      This is a view of a value, not a second heap model: `JsObjects.Val`
      holds objects by address and keeps only their own properties, while
      `isEmpty` reads an object's `length` (from any kind of object) and its
      inherited enumerable keys, which a record of `JsObjects` does not
      carry. Only what these two functions inspect is kept. */
  datatype JsValue =
    | Undefined
    | Null
    | Boolean(b: bool)
    | Number(n: int)
    | Str(s: string)
    | Object(length: Option<int>, forInKeys: seq<string>)
    | Function

  /** `isDef`: `value !== undefined && value !== null && value !== ''`. */
  function IsDef(v: JsValue): bool {
    v != Undefined && v != Null && v != Str("")
  }

  /** The leading `[ \t\n\r]*` removed. */
  function TrimStart(s: string): (r: string)
    ensures |r| <= |s| && r == s[|s| - |r|..]
    ensures forall i :: 0 <= i < |s| - |r| ==> IsWs(s[i])
    ensures r == [] || !IsWs(r[0])
  {
    if s != [] && IsWs(s[0]) then TrimStart(s[1..]) else s
  }

  /** The trailing `[ \t\n\r]*` removed. */
  function TrimEnd(s: string): (r: string)
    ensures |r| <= |s| && r == s[..|r|]
    ensures forall i :: |r| <= i < |s| ==> IsWs(s[i])
    ensures r == [] || !IsWs(r[|r| - 1])
  {
    if s != [] && IsWs(s[|s| - 1]) then TrimEnd(s[..|s| - 1]) else s
  }

  /** `value.replace(/(^[ \t\n\r]*)|([ \t\n\r]*$)/g, '')`. */
  function Trim(s: string): string {
    TrimEnd(TrimStart(s))
  }

  /** A string trims to nothing exactly when it is all whitespace. */
  lemma TrimEmpty(s: string)
    ensures Trim(s) == [] <==> forall i :: 0 <= i < |s| ==> IsWs(s[i])
  {
    var a := TrimStart(s);
    if Trim(s) == [] {
      assert |a| == 0;
    }
  }

  /** `isEmpty`. */
  function IsEmpty(v: JsValue): bool {
    match v
    case Undefined => true
    case Str(s) => |Trim(s)| == 0
    case Boolean(b) => !b
    case Number(n) => n == 0
    case Null => true
    case Object(length, keys) => length == Some(0) || |keys| == 0
    case Function => false
  }

  /** `isNoEmpty`. */
  function IsNoEmpty(v: JsValue): bool {
    !IsEmpty(v)
  }

  /** What `isEmpty` accepts: `undefined` and `null`; a string made only of
      spaces, tabs and line breaks; `false`; `0`; an object whose `length`
      is 0 or that has no enumerable key. */
  lemma EmptyCases(v: JsValue)
    ensures IsEmpty(v) <==>
      || v == Undefined || v == Null
      || (v.Str? && forall i :: 0 <= i < |v.s| ==> IsWs(v.s[i]))
      || v == Boolean(false) || v == Number(0)
      || (v.Object? && (v.length == Some(0) || v.forInKeys == []))
  {
    if v.Str? {
      TrimEmpty(v.s);
    }
  }

  /** `isNoEmpty` is true exactly for a string with some character other
      than a space, tab or line break, `true`, a non-zero number, a function,
      and an object with a `length` other than 0 and an enumerable key. */
  lemma NoEmptyCases(v: JsValue)
    ensures IsNoEmpty(v) <==>
      || (v.Str? && exists i :: 0 <= i < |v.s| && !IsWs(v.s[i]))
      || v == Boolean(true) || (v.Number? && v.n != 0) || v == Function
      || (v.Object? && v.length != Some(0) && v.forInKeys != [])
  {
    EmptyCases(v);
  }

  /** Examples: blank strings, `false`, `0`, `[]` and `{}` are empty;
      `'value'`, `[1]` and `{ a: 1 }` are not. */
  lemma EmptyExamples()
    ensures IsEmpty(Undefined) && IsEmpty(Str("")) && IsEmpty(Str("   "))
    ensures IsEmpty(Boolean(false)) && IsEmpty(Number(0))
    ensures IsEmpty(Object(Some(0), [])) && IsEmpty(Object(None, []))
    ensures !IsEmpty(Str("value")) && !IsEmpty(Object(Some(1), ["0"])) && !IsEmpty(Object(None, ["a"]))
  {
    TrimEmpty("");
    TrimEmpty("   ");
    TrimEmpty("value");
    assert !IsWs("value"[0]);
  }

  /** Whatever `isDef` rejects is empty, but not the other way round: `0`
      and `false` are defined and empty. */
  lemma UndefinedIsEmpty(v: JsValue)
    ensures !IsDef(v) ==> IsEmpty(v)
    ensures IsDef(Number(0)) && IsEmpty(Number(0)) && IsDef(Boolean(false)) && IsEmpty(Boolean(false))
  {
    if v == Str("") {
      TrimEmpty("");
    }
  }
}
