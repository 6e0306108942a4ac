/** Validation of a sponsored-registration request, and the text of its in-flight key. */
module RequestValidation {
  import opened Basics
  import opened Numerals
  import opened ContextCodec
  import opened EligibilityRelay

  /** Body fields as the validator sees them: `Number(chainId)` if a safe
      integer, the texts of the addresses, and two lists of texts or non-texts. */
  type Texts = Option<seq<Option<string>>>
  datatype Body =
    | NotAnObject
    | Body(chainId: Option<int>, gate: string, registry: string, account: string, proof: Texts, pub: Texts)
  datatype Config = Config(chainId: int, gate: string, registry: string)

  /** Every refusal is an HTTP 400; this says which check refused. */
  datatype BadRequest =
    | NoObject | WrongNetwork | NotAnAddress | WrongGate | WrongRegistry
    | WrongLength | NotAnInteger | TooLarge | OtherAccount
  datatype Validated = Valid(input: Input) | Invalid(refusal: BadRequest)

  const UINT256: nat := 0x1_0000_0000_0000_0000_0000_0000_0000_0000_0000_0000_0000_0000_0000_0000_0000_0000

  predicate IsAddress(s: string) {
    |s| == 42 && s[..2] == "0x" && forall i :: 2 <= i < 42 ==> IsHexDigit(s[i])
  }

  function LowerText(s: string): (r: string)
    ensures |r| == |s| && forall i :: 0 <= i < |s| ==> r[i] == Lower(s[i])
  {
    if s == "" then "" else LowerText(s[..|s| - 1]) + [Lower(s[|s| - 1])]
  }

  predicate IsPrefixedHex(s: string) {
    |s| > 2 && s[..2] == "0x" && forall i :: 2 <= i < |s| ==> IsHexDigit(s[i])
  }

  /** A canonical decimal or prefixed hex string below 2^256. */
  function AsUint(item: Option<string>): Result<nat, CodecError> {
    if item.None? || !(IsCanonical(item.value) || IsPrefixedHex(item.value)) then Err(Malformed(""))
    else
      var parsed := if IsCanonical(item.value) then DecimalValue(item.value) else HexValue(item.value[2..]);
      if parsed >= UINT256 then Err(DoesNotFit("")) else Ok(parsed)
  }

  function AsUints(items: seq<Option<string>>): (r: Result<seq<nat>, CodecError>)
    ensures r.Ok? ==> |r.value| == |items| && forall i :: 0 <= i < |items| ==> AsUint(items[i]) == Ok(r.value[i])
    ensures r.Err? ==> exists i :: 0 <= i < |items| && AsUint(items[i]) == Err(r.error)
  {
    if items == [] then Ok([])
    else
      assert forall i :: 1 <= i < |items| ==> items[i] == items[1..][i - 1];
      match AsUint(items[0])
      case Err(e) => Err(e)
      case Ok(first) =>
        match AsUints(items[1..])
        case Err(e) => Err(e)
        case Ok(rest) => Ok([first] + rest)
  }

  function AsUintArray(texts: Texts, length: nat): (r: Result<seq<nat>, CodecError>)
    ensures r.Ok? ==> texts.Some? && |r.value| == |texts.value| == length
  {
    if texts.None? || |texts.value| != length then Err(CodecError.WrongLength) else AsUints(texts.value)
  }

  function RefusalOf(error: CodecError): BadRequest {
    match error
    case WrongLength => BadRequest.WrongLength
    case DoesNotFit(_) => TooLarge
    case _ => NotAnInteger
  }

  function AccountNumber(account: string): nat
    requires IsAddress(account)
  {
    HexValue(account[2..])
  }

  function Validate(body: Body, config: Config): Validated {
    if body.NotAnObject? then Invalid(NoObject)
    else if body.chainId != Some(config.chainId) then Invalid(WrongNetwork)
    else if !IsAddress(body.gate) || !IsAddress(body.registry) || !IsAddress(body.account) then Invalid(NotAnAddress)
    else if LowerText(body.gate) != config.gate then Invalid(WrongGate)
    else if LowerText(body.registry) != config.registry then Invalid(WrongRegistry)
    else
      match AsUintArray(body.proof, 24)
      case Err(e) => Invalid(RefusalOf(e))
      case Ok(proof) =>
        match AsUintArray(body.pub, 7)
        case Err(e) => Invalid(RefusalOf(e))
        case Ok(pub) =>
          if pub[4] != AccountNumber(body.account) then Invalid(OtherAccount)
          else Valid(Input(LowerText(body.account), proof, pub))
  }

  // ------------------------------------------------------------- validation

  lemma {:induction false} CaseDoesNotCount(s: string)
    requires forall i :: 0 <= i < |s| ==> IsHexDigit(s[i])
    ensures forall i :: 0 <= i < |s| ==> IsHexDigit(LowerText(s)[i])
    ensures HexValue(LowerText(s)) == HexValue(s)
  {
    if s != "" {
      var n := |s| - 1;
      CaseDoesNotCount(s[..n]);
      assert LowerText(s)[..n] == LowerText(s[..n]);
      assert LowerText(s)[n] == Lower(s[n]);
    }
  }

  lemma LowerTail(s: string)
    requires |s| >= 2
    ensures LowerText(s)[2..] == LowerText(s[2..]) && (s[..2] == "0x" ==> LowerText(s)[..2] == "0x")
  {
    hide LowerText;
    assert LowerText(s)[2..] == LowerText(s[2..]);
    if s[..2] == "0x" {
      assert s[0] == s[..2][0] && s[1] == s[..2][1];
    }
  }

  /** Lower-casing an address keeps it an address, and its number. */
  lemma LowerAddress(s: string)
    requires IsAddress(s)
    ensures IsAddress(LowerText(s)) && AccountNumber(LowerText(s)) == AccountNumber(s)
    ensures LowerText(LowerText(s)) == LowerText(s)
  {
    var tail := s[2..];
    assert forall i :: 0 <= i < |tail| ==> tail[i] == s[i + 2];
    CaseDoesNotCount(tail);
    LowerTail(s);
    hide LowerText, HexValue;
    assert forall i :: 2 <= i < 42 ==> LowerText(s)[i] == LowerText(s)[2..][i - 2];
  }

  lemma UintsBounded(items: seq<Option<string>>)
    requires AsUints(items).Ok?
    ensures forall i :: 0 <= i < |items| ==> AsUints(items).value[i] < UINT256
  {
    hide AsUints;
    forall i | 0 <= i < |items|
      ensures AsUints(items).value[i] < UINT256
    {
      assert AsUint(items[i]) == Ok(AsUints(items).value[i]);
    }
  }

  /** What acceptance gives the relay: a lower-case address whose own number is
      the account the proof is bound to, and 24 and 7 integers below 2^256. */
  lemma AcceptedIsBound(body: Body, config: Config)
    requires Validate(body, config).Valid?
    ensures var input := Validate(body, config).input;
            && input.Valid()
            && IsAddress(input.account) && input.account == LowerText(input.account)
            && input.pub[4] == AccountNumber(input.account) == AccountNumber(body.account)
            && (forall i :: 0 <= i < 24 ==> input.proof[i] < UINT256)
            && (forall i :: 0 <= i < 7 ==> input.pub[i] < UINT256)
  {
    hide AsUints, AsUint, LowerText, HexValue;
    LowerAddress(body.account);
    UintsBounded(body.proof.value);
    UintsBounded(body.pub.value);
  }

  // ------------------------------------------------ what exactly is accepted

  /** The text is n in hex digits, all of them in lower case. */
  ghost predicate LowerSpells(s: string, n: nat) {
    n < Power(16, |s|) && forall k :: 0 <= k < |s| ==> s[k] == "0123456789abcdef"[DigitAt(16, n, |s| - 1 - k)]
  }

  /** An address worth n, in any case and in lower case. */
  ghost predicate AddressText(s: string, n: nat) { |s| == 42 && s[..2] == "0x" && Spells(16, s[2..], n) }

  ghost predicate LowerAddressText(s: string, n: nat) { |s| == 42 && s[..2] == "0x" && LowerSpells(s[2..], n) }

  /** A decimal without leading zeros, or prefixed hex, worth n below 2^256. */
  ghost predicate UintText(item: Option<string>, n: nat) {
    && n < 0x1_0000_0000_0000_0000_0000_0000_0000_0000_0000_0000_0000_0000_0000_0000_0000_0000
    && item.Some?
    && var s := item.value;
    && (|| (s != "" && (s[0] == '0' ==> |s| == 1) && Spells(10, s, n))
        || (|s| > 2 && s[..2] == "0x" && Spells(16, s[2..], n)))
  }

  ghost predicate UintTexts(texts: Texts, length: nat, ns: seq<nat>) {
    && texts.Some? && |texts.value| == length == |ns|
    && forall i :: 0 <= i < length ==> UintText(texts.value[i], ns[i])
  }

  lemma HexTailIs(s: string, n: nat)
    requires |s| >= 2
    ensures (forall i :: 2 <= i < |s| ==> IsHexDigit(s[i])) && HexValue(s[2..]) == n <==> Spells(16, s[2..], n)
  {
    var tail := s[2..];
    assert forall i :: 2 <= i < |s| ==> s[i] == tail[i - 2];
    HexIs(tail, n);
  }

  lemma UintIs(item: Option<string>, n: nat)
    ensures AsUint(item) == Ok(n) <==> UintText(item, n)
  {
    if item.Some? {
      DecimalIs(item.value, n);
      if |item.value| >= 2 {
        HexTailIs(item.value, n);
      }
      hide Spells, HexValue, DecimalValue;
      if |item.value| > 2 && item.value[..2] == "0x" {
        assert item.value[1] == item.value[..2][1] == 'x';
        HexIsNoDecimal(item.value);
      }
    }
  }

  lemma HexIsNoDecimal(s: string)
    requires |s| > 2 && s[1] == 'x'
    ensures !IsCanonical(s)
  {
  }

  lemma {:induction false} UintsAre(items: seq<Option<string>>, ns: seq<nat>)
    requires |items| == |ns|
    ensures AsUints(items) == Ok(ns) <==> forall i :: 0 <= i < |items| ==> UintText(items[i], ns[i])
  {
    hide UintText, AsUint;
    if items != [] {
      UintIs(items[0], ns[0]);
      UintsAre(items[1..], ns[1..]);
      assert forall i :: 1 <= i < |items| ==> items[i] == items[1..][i - 1] && ns[i] == ns[1..][i - 1];
      assert forall i :: 0 <= i < |items| - 1 ==> items[1..][i] == items[i + 1] && ns[1..][i] == ns[i + 1];
      assert ns == [ns[0]] + ns[1..];
    }
  }

  lemma UintArrayIs(texts: Texts, length: nat, ns: seq<nat>)
    ensures AsUintArray(texts, length) == Ok(ns) <==> UintTexts(texts, length, ns)
  {
    hide UintText, AsUints;
    if texts.Some? && |texts.value| == |ns| {
      UintsAre(texts.value, ns);
    }
  }

  lemma LowerDigit(c: char, d: nat)
    requires StandsFor(c, d)
    ensures Lower(c) == "0123456789abcdef"[d]
  {
  }

  /** The lower-cased address is the lower-case spelling of the same number. */
  lemma LowerIs(s: string, t: string)
    requires IsAddress(s)
    ensures AddressText(s, AccountNumber(s))
    ensures t == LowerText(s) <==> LowerAddressText(t, AccountNumber(s))
  {
    var n := AccountNumber(s);
    HexTailIs(s, n);
    LowerTail(s);
    hide LowerText, HexValue, Power, DigitAt;
    var (tail, low) := (s[2..], LowerText(s)[2..]);
    forall k | 0 <= k < 40
      ensures low[k] == "0123456789abcdef"[DigitAt(16, n, 39 - k)]
    {
      assert low[k] == Lower(tail[k]);
      LowerDigit(tail[k], DigitAt(16, n, 39 - k));
    }
    if LowerAddressText(t, n) {
      assert t[2..] == low && t == t[..2] + t[2..] && LowerText(s) == LowerText(s)[..2] + low;
    }
  }

  /** Exactly these bodies are accepted, with exactly this result: the right
      network, gate and registry in any case, 24 and 7 numerals, and a proof whose
      fifth public input is the account, which is handed on in lower case. */
  lemma ValidationIs(body: Body, config: Config, input: Input)
    ensures Validate(body, config) == Valid(input) <==>
            && body.Body? && body.chainId == Some(config.chainId)
            && (exists n :: AddressText(body.gate, n) && LowerAddressText(config.gate, n))
            && (exists n :: AddressText(body.registry, n) && LowerAddressText(config.registry, n))
            && UintTexts(body.proof, 24, input.proof) && UintTexts(body.pub, 7, input.pub)
            && AddressText(body.account, input.pub[4]) && LowerAddressText(input.account, input.pub[4])
  {
    if body.Body? {
      UintArrayIs(body.proof, 24, input.proof);
      UintArrayIs(body.pub, 7, input.pub);
      NamesTheAddress(body.gate, config.gate);
      NamesTheAddress(body.registry, config.registry);
      hide AddressText, LowerAddressText, UintText, AsUintArray, HexValue;
      if |input.pub| == 7 {
        AccountIs(body.account, input);
      }
    }
  }

  lemma NamesTheAddress(s: string, t: string)
    ensures IsAddress(s) && LowerText(s) == t <==> exists n :: AddressText(s, n) && LowerAddressText(t, n)
  {
    hide HexValue, LowerText, LowerAddressText, Spells;
    if |s| >= 2 {
      forall n
        ensures AddressText(s, n) ==> IsAddress(s) && AccountNumber(s) == n
      {
        HexTailIs(s, n);
      }
    }
    if IsAddress(s) {
      LowerIs(s, t);
    }
  }

  lemma AccountIs(account: string, input: Input)
    requires |input.pub| == 7
    ensures IsAddress(account) && input.pub[4] == AccountNumber(account) && input.account == LowerText(account) <==>
            AddressText(account, input.pub[4]) && LowerAddressText(input.account, input.pub[4])
  {
    hide HexValue, LowerText, LowerAddressText, Spells;
    if |account| >= 2 {
      HexTailIs(account, input.pub[4]);
    }
    if IsAddress(account) {
      LowerIs(account, input.account);
    }
  }

  // --------------------------------------------------- the text of a key

  function Digit(d: nat): (c: char)
    requires d < 10
    ensures IsDigit(c) && DigitValue(c) == d
  {
    (d + '0' as nat) as char
  }

  function Decimal(n: nat): (s: string)
    ensures s != "" && forall i :: 0 <= i < |s| ==> IsDigit(s[i])
  {
    if n < 10 then [Digit(n)] else Decimal(n / 10) + [Digit(n % 10)]
  }

  lemma {:induction false} DecimalRoundTrip(n: nat)
    ensures DecimalValue(Decimal(n)) == n
  {
    var s := Decimal(n);
    if n >= 10 {
      DecimalRoundTrip(n / 10);
      assert s[..|s| - 1] == Decimal(n / 10);
    } else {
      assert s[..0] == "";
    }
  }

  /** The template string that indexes the in-flight map. */
  function KeyText(key: FlightKey): string {
    key.account + ":" + Decimal(key.epoch) + ":" + Decimal(key.nullifier)
  }

  lemma SplitAtColon(a: string, b: string, c: string, d: string)
    requires a + ":" + b == c + ":" + d
    requires (forall i :: 0 <= i < |a| ==> a[i] != ':') && (forall i :: 0 <= i < |c| ==> c[i] != ':')
    ensures a == c && b == d
  {
    var whole := a + ":" + b;
    assert whole[|a|] == ':' && whole[|c|] == ':';
    assert forall i :: 0 <= i < |a| ==> whole[i] == a[i];
    assert forall i :: 0 <= i < |c| ==> whole[i] == c[i];
    assert a == whole[..|a|] == c;
    assert b == whole[|a| + 1..] == d;
  }

  lemma KeyTextParts(key: FlightKey)
    ensures KeyText(key)[..|key.account|] == key.account
    ensures KeyText(key)[|key.account| + 1..] == Decimal(key.epoch) + ":" + Decimal(key.nullifier)
  {
    hide Decimal;
    var rest := Decimal(key.epoch) + ":" + Decimal(key.nullifier);
    assert KeyText(key) == key.account + ":" + rest;
  }

  /** Two requests share an in-flight entry exactly when account, epoch and nullifier agree. */
  lemma KeyTextIsInjective(a: FlightKey, b: FlightKey)
    requires IsAddress(a.account) && IsAddress(b.account)
    ensures KeyText(a) == KeyText(b) <==> a == b
  {
    if KeyText(a) == KeyText(b) {
      KeyTextParts(a);
      KeyTextParts(b);
      assert |a.account| == |b.account| == 42;
      hide *;
      SplitAtColon(Decimal(a.epoch), Decimal(a.nullifier), Decimal(b.epoch), Decimal(b.nullifier));
      DecimalRoundTrip(a.epoch);
      DecimalRoundTrip(b.epoch);
      DecimalRoundTrip(a.nullifier);
      DecimalRoundTrip(b.nullifier);
    }
  }
}
