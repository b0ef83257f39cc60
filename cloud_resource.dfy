/**
 * The LwM2M resource wrapper of the simple cloud client
 * (mbed-cloud-client-resource.cpp): parsing an "object/instance/resource"
 * path, the string value a resource keeps while no M2M resource is bound to
 * it, the integer rendering behind `set_value(int)`, the record `get_data`
 * fills, and the labels of notification delivery statuses.
 */
module CloudResource {
  import opened Bits
  import opened GitText

  // ---------------------------------------------------------------------------
  // C `atoi`, and the decimal rendering of `m2m::String::append_int`
  // ---------------------------------------------------------------------------

  /** C `isspace` in the "C" locale. */
  predicate IsSpace(c: char) {
    c == ' ' || 9 <= c as int <= 13
  }

  predicate IsDigit(c: char) {
    '0' <= c <= '9'
  }

  predicate AllDigits(s: string) {
    forall i :: 0 <= i < |s| ==> IsDigit(s[i])
  }

  function DigitChar(d: nat): (c: char)
    requires d < 10
    ensures IsDigit(c) && c as int - '0' as int == d
  {
    ('0' as int + d) as char
  }

  /** What is left of `s` after its leading white space. */
  function SkipSpaces(s: string): (t: string)
    ensures t != [] ==> !IsSpace(t[0])
    decreases |s|
  {
    if s != [] && IsSpace(s[0]) then SkipSpaces(s[1..]) else s
  }

  /** The longest prefix of `s` made of decimal digits. */
  function LeadingDigits(s: string): (d: string)
    ensures AllDigits(d)
    decreases |s|
  {
    if s != [] && IsDigit(s[0]) then [s[0]] + LeadingDigits(s[1..]) else []
  }

  /** The leading digits are a prefix that stops before the first other character. */
  lemma {:induction false} LeadingDigitsPrefix(s: string)
    ensures var d := LeadingDigits(s); d <= s && (|d| < |s| ==> !IsDigit(s[|d|]))
    decreases |s|
  {
    if s != [] && IsDigit(s[0]) {
      LeadingDigitsPrefix(s[1..]);
      assert s == [s[0]] + s[1..];
    }
  }

  /** The number a string of decimal digits denotes, most significant first. */
  function Number(d: string): nat
    requires AllDigits(d)
    decreases |d|
  {
    if d == [] then 0 else Number(d[..|d| - 1]) * 10 + (d[|d| - 1] as int - '0' as int)
  }

  /**
   * C `atoi`: leading white space, an optional sign, then the leading decimal
   * digits; 0 when there are none. (An `int` overflow is undefined in C; the
   * model keeps the exact value.)
   */
  function Atoi(s: string): int {
    var t := SkipSpaces(s);
    if t != [] && t[0] == '-' then -(Number(LeadingDigits(t[1..])) as int)
    else if t != [] && t[0] == '+' then Number(LeadingDigits(t[1..]))
    else Number(LeadingDigits(t))
  }

  /** The decimal digits of `n`, without leading zeros. */
  function Digits(n: nat): (d: string)
    ensures d != [] && AllDigits(d)
    decreases n
  {
    (if n < 10 then [] else Digits(n / 10)) + [DigitChar(n % 10)]
  }

  /** `append_int`: the decimal rendering, with a minus sign when negative. */
  function Decimal(n: int): string {
    if n < 0 then "-" + Digits(-n) else Digits(n)
  }

  lemma {:induction false} NumberDigits(n: nat)
    ensures Number(Digits(n)) == n
    decreases n
  {
    var d := Digits(n);
    assert d[..|d| - 1] == (if n < 10 then [] else Digits(n / 10));
    if n >= 10 {
      NumberDigits(n / 10);
    }
  }

  lemma {:induction false} LeadingDigitsOf(d: string, rest: string)
    requires AllDigits(d) && (rest != [] ==> !IsDigit(rest[0]))
    ensures LeadingDigits(d + rest) == d
    decreases |d|
  {
    if d != [] {
      assert (d + rest)[1..] == d[1..] + rest;
      LeadingDigitsOf(d[1..], rest);
    } else {
      assert d + rest == rest;
    }
  }

  /** Text starting with a digit or a sign has no white space to skip. */
  lemma NoSpaceAhead(s: string)
    requires s != [] && (IsDigit(s[0]) || s[0] == '-')
    ensures SkipSpaces(s) == s
  {
  }

  lemma AtoiNaturalThen(n: int, rest: string)
    requires 0 <= n && (rest != [] ==> !IsDigit(rest[0]))
    ensures Atoi(Decimal(n) + rest) == n
  {
    var d := Digits(n);
    NumberDigits(n);
    LeadingDigitsOf(d, rest);
    assert (d + rest)[0] == d[0];
    NoSpaceAhead(d + rest);
  }

  /** After a leading '-', `atoi` negates the digits that follow. */
  lemma AtoiMinus(s: string)
    requires s != [] && s[0] == '-'
    ensures Atoi(s) == -(Number(LeadingDigits(s[1..])) as int)
  {
    NoSpaceAhead(s);
  }

  lemma AtoiMinusDigits(d: string, rest: string)
    requires AllDigits(d) && (rest != [] ==> !IsDigit(rest[0]))
    ensures Atoi("-" + d + rest) == -(Number(d) as int)
  {
    var s := "-" + d + rest;
    assert s[0] == '-' && s[1..] == d + rest;
    AtoiMinus(s);
    LeadingDigitsOf(d, rest);
  }

  lemma AtoiNegativeThen(n: int, rest: string)
    requires n < 0 && (rest != [] ==> !IsDigit(rest[0]))
    ensures Atoi(Decimal(n) + rest) == n
  {
    var m: nat := -n;
    assert Decimal(n) == "-" + Digits(m);
    AtoiMinusDigits(Digits(m), rest);
    NumberDigits(m);
  }

  /**
   * `atoi` reads back what `append_int` wrote, also when other text that
   * does not start with a digit follows it.
   */
  lemma AtoiDecimal(n: int, rest: string)
    requires rest != [] ==> !IsDigit(rest[0])
    ensures Atoi(Decimal(n) + rest) == n
  {
    if n < 0 {
      AtoiNegativeThen(n, rest);
    } else {
      AtoiNaturalThen(n, rest);
    }
  }

  /** Text that does not start with a number reads as 0. */
  lemma AtoiNoNumber(s: string)
    requires s != [] && !IsSpace(s[0]) && !IsDigit(s[0]) && s[0] != '-' && s[0] != '+'
    ensures Atoi(s) == 0
  {
  }

  /** Assigning an `int` to an `unsigned int`: reduction modulo 2^32. */
  function Unsigned(v: int): (r: u32)
    ensures 0 <= v < WORD ==> r == v
    ensures v < 0 <= v + WORD ==> r == v + WORD
  {
    v % WORD
  }

  // ---------------------------------------------------------------------------
  // C `strtok(…, "/")`
  // ---------------------------------------------------------------------------

  /** The first position at or after `pos` that does not hold a '/'. */
  function SkipSlashes(s: string, pos: nat): (p: nat)
    requires pos <= |s|
    ensures pos <= p <= |s| && (p < |s| ==> s[p] != '/')
    decreases |s| - pos
  {
    if pos < |s| && s[pos] == '/' then SkipSlashes(s, pos + 1) else pos
  }

  /** The first '/' at or after `pos`, or the end of `s`. */
  function TokenEnd(s: string, pos: nat): (e: nat)
    requires pos <= |s|
    ensures pos <= e <= |s| && (e < |s| ==> s[e] == '/') && Free(s[pos..e], '/')
    decreases |s| - pos
  {
    if pos < |s| && s[pos] != '/' then TokenEnd(s, pos + 1) else pos
  }

  /** A token `strtok` returned, and where its next call resumes. */
  datatype Token = Token(text: string, after: nat)

  /**
   * One call of `strtok` with "/" as delimiter, resuming at `pos`: the
   * delimiters there are skipped; at the end of the string there is no
   * token; otherwise the token runs to the next '/', which is cut out.
   */
  function NextToken(s: string, pos: nat): (t: Option<Token>)
    requires pos <= |s|
    ensures t.Some? ==> pos < t.value.after <= |s| && t.value.text != [] && Free(t.value.text, '/')
  {
    var start := SkipSlashes(s, pos);
    if start == |s| then None
    else
      var end := TokenEnd(s, start);
      Some(Token(s[start..end], if end < |s| then end + 1 else end))
  }

  /** Every token the calls of `strtok` return from `pos` on. */
  function TokensFrom(s: string, pos: nat): seq<string>
    requires pos <= |s|
    decreases |s| - pos + 1, 0
  {
    Remaining(s, NextToken(s, pos))
  }

  /** The tokens still to come, once `strtok` has returned `t`. */
  function Remaining(s: string, t: Option<Token>): seq<string>
    requires t.Some? ==> t.value.after <= |s|
    decreases if t.Some? then |s| - t.value.after + 1 else 0, 1
  {
    match t
    case None => []
    case Some(tok) => [tok.text] + TokensFrom(s, tok.after)
  }

  function Tokens(s: string): seq<string> {
    TokensFrom(s, 0)
  }

  /** The non-empty strings of `parts`, in order. */
  function NonEmpty(parts: seq<string>): (r: seq<string>)
    ensures forall k :: 0 <= k < |r| ==> r[k] != []
    decreases |parts|
  {
    if parts == [] then []
    else (if parts[0] == [] then [] else [parts[0]]) + NonEmpty(parts[1..])
  }

  lemma {:induction false} NonEmptyAppend(a: seq<string>, b: seq<string>)
    ensures NonEmpty(a + b) == NonEmpty(a) + NonEmpty(b)
    decreases |a|
  {
    if a != [] {
      assert (a + b)[0] == a[0] && (a + b)[1..] == a[1..] + b;
      NonEmptyAppend(a[1..], b);
    } else {
      assert a + b == b;
    }
  }

  /** The split of a suffix starting with a separator-free run up to a '/' (or the end). */
  lemma {:induction false} SplitRun(s: string, pos: nat, end: nat)
    requires pos <= end <= |s| && Free(s[pos..end], '/') && (end < |s| ==> s[end] == '/')
    ensures Split(s[pos..], '/') == [s[pos..end]] + (if end < |s| then Split(s[end + 1..], '/') else [])
    decreases end - pos
  {
    if pos == end {
      if end < |s| {
        assert s[pos..][1..] == s[end + 1..];
      }
    } else {
      assert s[pos..][0] == s[pos] && s[pos..][1..] == s[pos + 1..];
      assert s[pos + 1..end] == s[pos..end][1..];
      SplitRun(s, pos + 1, end);
      assert [s[pos]] + s[pos + 1..end] == s[pos..end];
    }
  }

  lemma NonEmptyCons(x: string, tail: seq<string>)
    ensures NonEmpty([x] + tail) == (if x == [] then [] else [x]) + NonEmpty(tail)
  {
    assert ([x] + tail)[1..] == tail;
  }

  /**
   * What the calls of `strtok` return are exactly the non-empty pieces of
   * splitting at every '/': empty segments (a leading, trailing or doubled
   * '/') are skipped.
   */
  lemma {:induction false} TokensFromSplit(s: string, pos: nat)
    requires pos <= |s|
    ensures TokensFrom(s, pos) == NonEmpty(Split(s[pos..], '/'))
    decreases |s| - pos
  {
    if pos == |s| {
      assert s[pos..] == [];
    } else if s[pos] == '/' {
      TokensFromSplit(s, pos + 1);
      SlashStep(s, pos);
    } else {
      var end := TokenEnd(s, pos);
      if end < |s| {
        TokensFromSplit(s, end + 1);
      }
      RunStep(s, pos, end);
    }
  }

  /** A '/' at `pos` yields an empty piece and no token. */
  lemma SlashStep(s: string, pos: nat)
    requires pos < |s| && s[pos] == '/'
    requires TokensFrom(s, pos + 1) == NonEmpty(Split(s[pos + 1..], '/'))
    ensures TokensFrom(s, pos) == NonEmpty(Split(s[pos..], '/'))
  {
    assert s[pos..][0] == '/' && s[pos..][1..] == s[pos + 1..];
    assert Split(s[pos..], '/') == [[]] + Split(s[pos + 1..], '/');
    NonEmptyCons([], Split(s[pos + 1..], '/'));
    assert NextToken(s, pos) == NextToken(s, pos + 1);
  }

  /** A run of other characters from `pos` to `end` is one token and one piece. */
  lemma RunStep(s: string, pos: nat, end: nat)
    requires pos < |s| && s[pos] != '/' && end == TokenEnd(s, pos)
    requires end < |s| ==> TokensFrom(s, end + 1) == NonEmpty(Split(s[end + 1..], '/'))
    ensures TokensFrom(s, pos) == NonEmpty(Split(s[pos..], '/'))
  {
    var after := if end < |s| then end + 1 else end;
    var tail := if end < |s| then Split(s[end + 1..], '/') else [];
    SplitRun(s, pos, end);
    assert s[pos..end] != [] by {
      assert s[pos..end][0] == s[pos];
    }
    assert NextToken(s, pos) == Some(Token(s[pos..end], after));
    assert TokensFrom(s, pos) == [s[pos..end]] + TokensFrom(s, after);
    NonEmptyCons(s[pos..end], tail);
    if end == |s| {
      assert TokensFrom(s, end) == [];
    }
  }

  lemma TokensSplit(s: string)
    ensures Tokens(s) == NonEmpty(Split(s, '/'))
  {
    TokensFromSplit(s, 0);
    assert s[0..] == s;
  }

  /** A '/' between two strings tokenises them separately, whatever '/'s they add. */
  lemma TokensAppend(a: string, b: string)
    ensures Tokens(a + "/" + b) == Tokens(a) + Tokens(b)
  {
    TokensSplit(a + "/" + b);
    TokensSplit(a);
    TokensSplit(b);
    SplitAppend(a, '/', b);
    NonEmptyAppend(Split(a, '/'), Split(b, '/'));
  }

  lemma TokensJoin(a: string, b: string, ab: string)
    requires ab == a + "/" + b
    ensures Tokens(ab) == Tokens(a) + Tokens(b)
  {
    TokensAppend(a, b);
  }

  // ---------------------------------------------------------------------------
  // path_to_ids
  // ---------------------------------------------------------------------------

  /** The object, instance and resource ids `path_to_ids` writes through its out-pointers. */
  datatype Ids = Ids(objectId: u32, instanceId: u32, resourceId: u32)

  /** Writing `v` to the out-pointer selected by `index`, as the `switch` does. */
  function Store(ids: Ids, index: nat, v: u32): Ids
    requires index < 3
  {
    if index == 0 then ids.(objectId := v)
    else if index == 1 then ids.(instanceId := v)
    else ids.(resourceId := v)
  }

  /** The ids once the first `|tokens|` of them hold `atoi` of the tokens; the others keep their values. */
  function Filled(ids: Ids, tokens: seq<string>): Ids
    requires |tokens| <= 3
  {
    Ids(if |tokens| > 0 then Unsigned(Atoi(tokens[0])) else ids.objectId,
        if |tokens| > 1 then Unsigned(Atoi(tokens[1])) else ids.instanceId,
        if |tokens| > 2 then Unsigned(Atoi(tokens[2])) else ids.resourceId)
  }

  /** The ids `path_to_ids(path, …)` leaves: `atoi` of each of the first three tokens. */
  function PathIds(path: string, ids: Ids): Ids {
    var tokens := Tokens(path);
    Filled(ids, tokens[..Min(3, |tokens|)])
  }

  /** Storing the next token's value extends the filled prefix by one. */
  lemma StoreNext(ids: Ids, tokens: seq<string>, index: nat)
    requires index < 3 && index < |tokens|
    ensures Store(Filled(ids, tokens[..index]), index, Unsigned(Atoi(tokens[index])))
            == Filled(ids, tokens[..index + 1])
  {
    assert tokens[..index + 1][index] == tokens[index];
  }

  /**
   * `path_to_ids`: tokenises `path` at '/' and stores `atoi` of the first,
   * second and third token in the object, instance and resource id.
   */
  method PathToIds(path: string, ids: Ids) returns (r: Ids)
    ensures r == PathIds(path, ids)
  {
    var index := 0;
    var pch := NextToken(path, 0);
    r := ids;
    while pch.Some? && index < 3
      invariant index <= 3 && index <= |Tokens(path)|
      invariant pch.Some? ==> pch.value.after <= |path|
      invariant Remaining(path, pch) == Tokens(path)[index..]
      invariant r == Filled(ids, Tokens(path)[..index])
      decreases 3 - index
    {
      var tokens := Tokens(path);
      var tok := pch.value;
      assert tokens[index..] == [tok.text] + TokensFrom(path, tok.after);
      assert tokens[index + 1..] == tokens[index..][1..];
      StoreNext(ids, tokens, index);
      r := Store(r, index, Unsigned(Atoi(tok.text)));
      pch := NextToken(path, tok.after);
      index := index + 1;
    }
    assert index == Min(3, |Tokens(path)|);
  }

  lemma DigitsToken(n: nat)
    ensures Tokens(Digits(n)) == [Digits(n)] && Atoi(Digits(n)) == n
  {
    var d := Digits(n);
    assert Free(d, '/') by {
      assert forall i :: 0 <= i < |d| ==> IsDigit(d[i]);
    }
    SingleToken(d);
    AtoiDecimal(n, []);
    assert Decimal(n) + [] == d;
  }

  /** A path written from three ids parses back to them. */
  lemma PathRoundTrip(path: string, a: u32, b: u32, c: u32, ids: Ids)
    requires path == Digits(a) + "/" + Digits(b) + "/" + Digits(c)
    ensures PathIds(path, ids) == Ids(a, b, c)
  {
    var ab := Digits(a) + "/" + Digits(b);
    TokensJoin(ab, Digits(c), path);
    TokensJoin(Digits(a), Digits(b), ab);
    DigitsToken(a);
    DigitsToken(b);
    DigitsToken(c);
    var tokens := Tokens(path);
    assert tokens == [Digits(a), Digits(b), Digits(c)];
    assert tokens[..Min(3, |tokens|)] == tokens;
  }

  /** The documented path form "3200/0/5501". */
  lemma PathExample(ids: Ids)
    ensures PathIds("3200/0/5501", ids) == Ids(3200, 0, 5501)
  {
    assert Digits(3) == "3" && Digits(32) == "32" && Digits(320) == "320" && Digits(3200) == "3200";
    assert Digits(0) == "0";
    assert Digits(5) == "5" && Digits(55) == "55" && Digits(550) == "550" && Digits(5501) == "5501";
    assert "3200/0/5501" == "3200" + "/" + "0" + "/" + "5501";
    PathRoundTrip("3200/0/5501", 3200, 0, 5501, ids);
  }

  lemma SingleToken(s: string)
    requires s != [] && Free(s, '/')
    ensures Tokens(s) == [s]
  {
    TokensSplit(s);
    SplitFree(s, '/');
  }

  /** Only the first three tokens count: whatever follows them is ignored. */
  lemma ExtraSegmentsIgnored(path: string, extra: string, ids: Ids)
    requires |Tokens(path)| >= 3
    ensures PathIds(path + "/" + extra, ids) == PathIds(path, ids)
  {
    TokensAppend(path, extra);
    assert (Tokens(path) + Tokens(extra))[..3] == Tokens(path)[..3];
  }

  /** Empty segments are skipped: doubling a '/' changes nothing. */
  lemma EmptySegmentsSkipped(a: string, b: string, ids: Ids)
    ensures PathIds(a + "//" + b, ids) == PathIds(a + "/" + b, ids)
  {
    TokensAppend(a, "/" + b);
    TokensAppend([], b);
    TokensAppend(a, b);
    assert a + "//" + b == a + "/" + ("/" + b);
    assert [] + "/" + b == "/" + b;
    assert Tokens([]) == [];
  }

  /** With fewer than three tokens the ids after the last one keep their values. */
  lemma ShortPathKeeps(path: string, ids: Ids)
    ensures var n := |Tokens(path)|;
            var r := PathIds(path, ids);
            && (n < 1 ==> r.objectId == ids.objectId)
            && (n < 2 ==> r.instanceId == ids.instanceId)
            && (n < 3 ==> r.resourceId == ids.resourceId)
            && (n >= 3 ==> r == PathIds(path, Ids(0, 0, 0)))
  {
  }

  // ---------------------------------------------------------------------------
  // MbedCloudClientResource
  // ---------------------------------------------------------------------------

  /**
   * The M2M resource a wrapper can be bound to, as far as the wrapper uses
   * it: the text `set_value` hands it and `get_value_string` returns.
   */
  class M2MResource {
    var text: string

    constructor (text: string)
      ensures this.text == text
    {
      this.text := text;
    }

    /** `get_value_int` of the M2M library, read as `atoi` of the text. */
    function IntValue(): int
      reads this
    {
      Atoi(text)
    }
  }

  /** `mcc_resource_def`: the record `get_data` fills (callback pointers left out). */
  class ResourceDef {
    var ids: Ids
    var name: string
    var methodMask: u32
    var value: string
    var observable: bool

    constructor ()
      ensures ids == Ids(0, 0, 0) && name == [] && methodMask == 0 && value == [] && !observable
    {
      ids, name, methodMask, value, observable := Ids(0, 0, 0), [], 0, [], false;
    }
  }

  /**
   * `MbedCloudClientResource`: an LwM2M path and a display name, the method
   * mask and observability flag, a cached string value, and the M2M resource
   * it is bound to, if any.
   */
  class Resource {
    const path: string
    const name: string
    var value: string
    var isObservable: bool
    var methodMask: u32
    var resource: M2MResource?

    /** The constructor leaves `isObservable` and `methodMask` as they come. */
    constructor (path: string, name: string)
      ensures this.path == path && this.name == name && value == [] && resource == null
    {
      this.path := path;
      this.name := name;
      value := [];
      resource := null;
    }

    method Observable(observable: bool)
      modifies this
      ensures isObservable == observable
      ensures value == old(value) && methodMask == old(methodMask) && resource == old(resource)
    {
      isObservable := observable;
    }

    method Methods(mask: u32)
      modifies this
      ensures methodMask == mask
      ensures value == old(value) && isObservable == old(isObservable) && resource == old(resource)
    {
      methodMask := mask;
    }

    /** `set_m2m_resource`. */
    method Bind(res: M2MResource?)
      modifies this
      ensures resource == res
      ensures value == old(value) && isObservable == old(isObservable) && methodMask == old(methodMask)
    {
      resource := res;
    }

    /** `get_value`: the bound resource's text, or the cached value when unbound. */
    function GetValue(): string
      reads this, resource
    {
      if resource != null then resource.text else value
    }

    /** `get_value_int`: 0 while unbound, whatever value is cached. */
    function GetValueInt(): int
      reads this, resource
    {
      if resource == null then 0 else resource.IntValue()
    }

    /**
     * `set_value(int)`: caches the decimal rendering and hands it to the
     * bound resource, if any; reading the value back gives the integer.
     */
    method SetInt(v: int)
      modifies this, resource
      ensures value == Decimal(v) && resource == old(resource)
      ensures resource != null ==> resource.text == Decimal(v)
      ensures isObservable == old(isObservable) && methodMask == old(methodMask)
      ensures GetValue() == Decimal(v) && Atoi(GetValue()) == v
      ensures GetValueInt() == if resource == null then 0 else v
    {
      value := Decimal(v);
      if resource != null {
        resource.text := value;
      }
      AtoiDecimal(v, []);
      assert Decimal(v) + [] == Decimal(v);
    }

    /**
     * `set_value(const char*)`: caches the string and hands it to the bound
     * resource, if any; `get_value` then returns it.
     */
    method SetString(s: string)
      modifies this, resource
      ensures value == s && resource == old(resource)
      ensures resource != null ==> resource.text == s
      ensures isObservable == old(isObservable) && methodMask == old(methodMask)
      ensures GetValue() == s
    {
      value := s;
      if resource != null {
        resource.text := s;
      }
    }

    /** `get_data`: the ids parsed from the path, the name, mask, flag and current value. */
    method GetData(def: ResourceDef)
      modifies def
      ensures def.ids == PathIds(path, old(def.ids))
      ensures def.name == name && def.methodMask == methodMask && def.observable == isObservable
      ensures def.value == GetValue()
    {
      var ids := PathToIds(path, def.ids);
      def.ids := ids;
      def.name := name;
      def.methodMask := methodMask;
      def.observable := isObservable;
      def.value := GetValue();
    }
  }

  /**
   * A resource that was never bound gets back the string it was given, and
   * the record `get_data` fills carries the ids of its path.
   */
  method UnboundResource(s: string) returns (value: string, def: ResourceDef)
    ensures value == s
    ensures def.ids == Ids(3200, 0, 5501) && def.name == "Name" && def.value == s
  {
    var r := new Resource("3200/0/5501", "Name");
    r.SetInt(42);
    r.SetString(s);
    value := r.GetValue();
    def := new ResourceDef();
    r.GetData(def);
    PathExample(Ids(0, 0, 0));
  }

  // ---------------------------------------------------------------------------
  // delivery_status_to_string
  // ---------------------------------------------------------------------------

  /** `NoticationDeliveryStatus`, plus any value outside its eight enumerators. */
  datatype DeliveryStatus =
    | Init | BuildError | ResendQueueFull | Sent | Delivered | SendFailed | Subscribed | Unsubscribed
    | OtherStatus(code: int)

  /** The fixed label of each status; "Unknown" for anything else. */
  function DeliveryStatusToString(status: DeliveryStatus): (text: string)
    ensures text == "Unknown" <==> status.OtherStatus?
  {
    match status
    case Init => "Init"
    case BuildError => "Build error"
    case ResendQueueFull => "Resend queue full"
    case Sent => "Sent"
    case Delivered => "Delivered"
    case SendFailed => "Send failed"
    case Subscribed => "Subscribed"
    case Unsubscribed => "Unsubscribed"
    case OtherStatus(_) => "Unknown"
  }

  /** Distinct statuses of the enumeration get distinct labels. */
  lemma DeliveryLabelsDistinct(s1: DeliveryStatus, s2: DeliveryStatus)
    requires !s1.OtherStatus? && !s2.OtherStatus? && s1 != s2
    ensures DeliveryStatusToString(s1) != DeliveryStatusToString(s2)
  {
  }
}
