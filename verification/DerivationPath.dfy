/** HD wallet derivation paths: the parser and the printer of `accounts/hd.go`. */
module DerivationPath {
  import opened Basics

  type Component = x: int | 0 <= x < 0x1_0000_0000

  const HARDENED: int := 0x8000_0000
  const MAX_UINT32: int := 0xffff_ffff
  const DEFAULT_ROOT: seq<Component> := [HARDENED + 44, HARDENED + 60, HARDENED + 0, 0]

  datatype PathError = EmptyPath | AmbiguousPath | InvalidComponent(text: string) | OutOfRange(value: int, max: int)

  datatype Result<+T> = Ok(value: T) | Err(error: PathError)

  // ---- Go library functions the parser calls ----

  /** strings.Split(s, "/"): n separators give n + 1 parts. */
  function Split(s: string): (parts: seq<string>)
    ensures |parts| >= 1
  {
    if s == [] then [[]]
    else
      var rest := Split(s[1..]);
      if s[0] == '/' then [[]] + rest else [[s[0]] + rest[0]] + rest[1..]
  }

  /** unicode.IsSpace */
  predicate IsSpace(c: char) {
    || '\t' <= c <= '\r' || c == ' ' || c == '\U{85}' || c == '\U{A0}' || c == '\U{1680}'
    || '\U{2000}' <= c <= '\U{200A}' || c == '\U{2028}' || c == '\U{2029}' || c == '\U{202F}'
    || c == '\U{205F}' || c == '\U{3000}'
  }

  /** strings.TrimSpace */
  function TrimSpace(s: string): (r: string)
    decreases |s|
  {
    if s == [] then s
    else if IsSpace(s[0]) then TrimSpace(s[1..])
    else if IsSpace(s[|s| - 1]) then TrimSpace(s[..|s| - 1])
    else s
  }

  /** The value of a digit in bases up to 36; 36 for any other character. */
  function DigitValue(c: char): nat {
    if '0' <= c <= '9' then c as int - '0' as int
    else if 'a' <= c <= 'z' then c as int - 'a' as int + 10
    else if 'A' <= c <= 'Z' then c as int - 'A' as int + 10
    else 36
  }

  /** The digit loop of big.Int's scanner with base prefixes enabled. `afterDigit` says that an
      underscore may follow; None is a character outside the base, a misplaced underscore or no digit. */
  function ScanDigits(s: string, base: nat, value: nat, count: nat, afterDigit: bool): Option<nat> {
    if s == [] then
      if count > 0 && afterDigit then Some(value) else None
    else if s[0] == '_' then
      if afterDigit then ScanDigits(s[1..], base, value, count, false) else None
    else if DigitValue(s[0]) < base then
      ScanDigits(s[1..], base, value * base + DigitValue(s[0]), count + 1, true)
    else None
  }

  /** The magnitude: 0b, 0o, 0x and bare 0 select the base, decimal otherwise. */
  function ScanNat(s: string): Option<nat> {
    if |s| >= 2 && s[0] == '0' then
      if s[1] in "bB" then ScanDigits(s[2..], 2, 0, 0, true)
      else if s[1] in "oO" then ScanDigits(s[2..], 8, 0, 0, true)
      else if s[1] in "xX" then ScanDigits(s[2..], 16, 0, 0, true)
      else ScanDigits(s[1..], 8, 0, 0, true)
    else ScanDigits(s, 10, 0, 0, false)
  }

  function Negate(v: int): int { -v }

  /** new(big.Int).SetString(s, 0) */
  function SetString(s: string): Option<int> {
    if s != [] && s[0] == '-' then
      match ScanNat(s[1..]) case None => None case Some(v) => Some(Negate(v))
    else
      match ScanNat(if s != [] && s[0] == '+' then s[1..] else s) case None => None case Some(v) => Some(v)
  }

  /** fmt.Sprintf("%d", n) */
  function Decimal(n: nat): (s: string)
    ensures s != [] && forall c :: c in s ==> '0' <= c <= '9'
    ensures s[0] == '0' ==> n == 0
  {
    var digit := [('0' as int + n % 10) as char];
    if n < 10 then digit else Decimal(n / 10) + digit
  }

  // ---- One component ----

  function ParseComponent(text: string): (r: Result<Component>) {
    var trimmed := TrimSpace(text);
    var hardened := trimmed != [] && trimmed[|trimmed| - 1] == '\'';
    var number := if hardened then TrimSpace(trimmed[..|trimmed| - 1]) else trimmed;
    var base := if hardened then HARDENED else 0;
    match SetString(number)
    case None => Err(InvalidComponent(number))
    case Some(v) =>
      if v < 0 || v > MAX_UINT32 - base then Err(OutOfRange(v, MAX_UINT32 - base)) else Ok(base + v)
  }

  function PrintComponent(c: Component): (s: string) {
    if c >= HARDENED then Decimal(c - HARDENED) + "'" else Decimal(c)
  }

  lemma {:induction false} ScanDecimal(n: nat, rest: string, count: nat, afterDigit: bool)
    ensures ScanDigits(Decimal(n) + rest, 10, 0, count, afterDigit)
            == ScanDigits(rest, 10, n, count + |Decimal(n)|, true)
  {
    var digit := [('0' as int + n % 10) as char];
    assert DigitValue(digit[0]) == n % 10;
    if n < 10 {
      assert (digit + rest)[1..] == rest;
    } else {
      ScanDecimal(n / 10, digit + rest, count, afterDigit);
      assert Decimal(n) + rest == Decimal(n / 10) + (digit + rest);
      assert (digit + rest)[1..] == rest;
    }
  }

  lemma SetStringDecimal(n: nat)
    ensures SetString(Decimal(n)) == Some(n)
  {
    var s := Decimal(n);
    assert s + [] == s;
    ScanDecimal(n, [], 0, false);
    assert s[0] == '0' ==> s == "0";
  }

  lemma TrimDigits(s: string)
    requires s != [] && !IsSpace(s[0]) && !IsSpace(s[|s| - 1])
    ensures TrimSpace(s) == s
  {
  }

  /** Printing a component and parsing it again gives it back. */
  lemma ComponentRoundTrip(c: Component)
    ensures ParseComponent(PrintComponent(c)) == Ok(c)
  {
    var hardened := c >= HARDENED;
    var digits := Decimal(if hardened then c - HARDENED else c);
    SetStringDecimal(if hardened then c - HARDENED else c);
    TrimDigits(PrintComponent(c));
    TrimDigits(digits);
    assert digits[|digits| - 1] in digits;
    assert hardened ==> PrintComponent(c)[..|digits|] == digits;
  }

  // ---- Whole paths ----

  /** The component loop over all of `parts`: the first bad component decides the error. */
  function ParseComponents(parts: seq<string>): (r: Result<seq<Component>>) {
    if parts == [] then Ok([])
    else
      var n := |parts| - 1;
      match ParseComponents(parts[..n])
      case Err(e) => Err(e)
      case Ok(done) =>
        match ParseComponent(parts[n])
        case Err(e) => Err(e)
        case Ok(c) => Ok(done + [c])
  }

  lemma ParseOneMore(parts: seq<string>, i: nat)
    requires i < |parts| && ParseComponents(parts[..i]).Ok?
    ensures ParseComponents(parts[..i + 1]) ==
            match ParseComponent(parts[i])
            case Err(e) => Err(e)
            case Ok(c) => Ok(ParseComponents(parts[..i]).value + [c])
  {
    assert parts[..i + 1][..i] == parts[..i];
  }

  function Parse(path: string): (r: Result<seq<Component>>)
    ensures r.Ok? ==> r.value != []
  {
    var parts := Split(path);
    var head := TrimSpace(parts[0]);
    if head == "" then Err(AmbiguousPath)
    else
      var absolute := head == "m";
      var rest := if absolute then parts[1..] else parts;
      if rest == [] then Err(EmptyPath)
      else
        match ParseComponents(rest)
        case Err(e) => Err(e)
        case Ok(cs) => ParsedLength(rest); Ok(if absolute then cs else DEFAULT_ROOT + cs)
  }

  lemma {:induction false} ParsedLength(parts: seq<string>)
    ensures ParseComponents(parts).Ok? ==> |ParseComponents(parts).value| == |parts|
  {
    if parts != [] { ParsedLength(parts[..|parts| - 1]); }
  }

  function Render(path: seq<Component>): (s: string) {
    if path == [] then "m"
    else Render(path[..|path| - 1]) + "/" + PrintComponent(path[|path| - 1])
  }

  function PrintAll(path: seq<Component>): (parts: seq<string>)
    ensures |parts| == |path| && forall i :: 0 <= i < |path| ==> parts[i] == PrintComponent(path[i])
  {
    seq(|path|, i requires 0 <= i < |path| => PrintComponent(path[i]))
  }

  lemma {:induction false} SplitLast(s: string, part: string)
    requires '/' !in part
    ensures Split(s + "/" + part) == Split(s) + [part]
  {
    if s == [] {
      SplitAtom(part);
      assert s + "/" + part == "/" + part;
      assert ("/" + part)[1..] == part;
    } else {
      SplitLast(s[1..], part);
      assert (s + "/" + part)[1..] == s[1..] + "/" + part;
    }
  }

  lemma {:induction false} SplitAtom(part: string)
    requires '/' !in part
    ensures Split(part) == [part]
  {
    if part != [] {
      SplitAtom(part[1..]);
      assert [part[0]] + part[1..] == part;
    }
  }

  lemma {:induction false} SplitRendered(path: seq<Component>)
    ensures Split(Render(path)) == ["m"] + PrintAll(path)
  {
    if path == [] {
      SplitAtom("m");
    } else {
      var n := |path| - 1;
      SplitRendered(path[..n]);
      SplitLast(Render(path[..n]), PrintComponent(path[n]));
      assert PrintAll(path) == PrintAll(path[..n]) + [PrintComponent(path[n])];
    }
  }

  lemma {:induction false} ParsePrinted(path: seq<Component>)
    ensures ParseComponents(PrintAll(path)) == Ok(path)
  {
    if path == [] {
      assert PrintAll(path) == [];
    } else {
      var n := |path| - 1;
      assert path[..n] + [path[n]] == path;
      ParsePrinted(path[..n]);
      ComponentRoundTrip(path[n]);
      assert PrintAll(path)[..n] == PrintAll(path[..n]) && PrintAll(path)[..n + 1] == PrintAll(path);
      ParseOneMore(PrintAll(path), n);
    }
  }

  /** Every non-empty path survives printing and parsing; the empty one prints as a bare "m", which is refused. */
  lemma RoundTrip(path: seq<Component>)
    ensures path != [] ==> Parse(Render(path)) == Ok(path)
    ensures path == [] ==> Parse(Render(path)) == Err(EmptyPath)
  {
    SplitRendered(path);
    ParsePrinted(path);
    TrimDigits("m");
    assert (["m"] + PrintAll(path))[1..] == PrintAll(path);
  }

  /** Parse, print, parse is stable on every accepted string. */
  lemma Stable(text: string)
    requires Parse(text).Ok?
    ensures Parse(Render(Parse(text).value)) == Parse(text)
  {
    RoundTrip(Parse(text).value);
  }

  /** Distinct paths print differently. */
  lemma RenderInjective(p: seq<Component>, q: seq<Component>)
    requires Render(p) == Render(q)
    ensures p == q
  {
    RoundTrip(p);
    RoundTrip(q);
  }

  lemma {:induction false} FirstErrorWins(parts: seq<string>, i: nat)
    requires i <= |parts| && ParseComponents(parts[..i]).Err?
    ensures ParseComponents(parts) == Err(ParseComponents(parts[..i]).error)
    decreases |parts|
  {
    if i == |parts| {
      assert parts[..i] == parts;
    } else {
      assert parts[..|parts| - 1][..i] == parts[..i];
      FirstErrorWins(parts[..|parts| - 1], i);
    }
  }

  // ---- The methods ----

  method ParseDerivationPath(path: string) returns (r: Result<seq<Component>>)
    ensures r == Parse(path)
  {
    hide ParseComponent, TrimSpace, Split;
    var result: seq<Component> := [];
    var components := Split(path);
    var head := TrimSpace(components[0]);
    if head == "" {
      return Err(AmbiguousPath);
    } else if head == "m" {
      components := components[1..];
    } else {
      result := DEFAULT_ROOT;
    }
    if components == [] {
      return Err(EmptyPath);
    }
    ghost var root := result;
    for i := 0 to |components|
      invariant ParseComponents(components[..i]).Ok?
      invariant result == root + ParseComponents(components[..i]).value
    {
      ParseOneMore(components, i);
      var c := ParseComponent(components[i]);
      if c.Err? {
        FirstErrorWins(components, i + 1);
        return Err(c.error);
      }
      result := result + [c.value];
    }
    assert components[..|components|] == components;
    assert [] + ParseComponents(components).value == ParseComponents(components).value;
    r := Ok(result);
  }

  method String(path: seq<Component>) returns (result: string)
    ensures result == Render(path)
  {
    result := "m";
    for i := 0 to |path|
      invariant result == Render(path[..i])
    {
      assert path[..i + 1][..i] == path[..i];
      var component: int := path[i];
      var hardened := false;
      if component >= HARDENED {
        component := component - HARDENED;
        hardened := true;
      }
      result := result + "/" + Decimal(component);
      if hardened {
        result := result + "'";
      }
    }
    assert path[..|path|] == path;
  }
}
