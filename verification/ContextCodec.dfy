/** The codec of the public-instance context: eighteen fields, six of them
    features, become 173 limbs of 16 bits.

    The straight-line sequence of reads and appends is a table of fields in the
    order they are read; a value is what the decoded JSON may hold. */
module ContextCodec {
  import opened Basics
  import opened Numerals

  const CONTEXT_LIMBS: nat := 173
  const BASE: nat := 0x1_0000

  /** A Python value: a bool is not an integer here, and anything else is Other. */
  datatype Value = Bool(truth: bool) | Int(number: int) | Str(text: string) | Dict(entries: map<string, Value>) | Other

  datatype CodecError = UnknownFields | UnknownFeatures | BuyOnly | Malformed(name: string) | DoesNotFit(name: string)
                      | OutsideDomain | LimbOverflow | WrongLength

  // ----------------------------------------------------------------- shifts

  /** 1 << bits. */
  function Shifted(bits: nat): nat { if bits == 0 then 1 else 2 * Shifted(bits - 1) }

  lemma {:induction false} ShiftedLimbs(k: nat)
    ensures Shifted(16 * k) == Power(BASE, k)
  {
    if k > 0 {
      ShiftedLimbs(k - 1);
      Shift4(16 * k - 4);
      Shift4(16 * k - 8);
      Shift4(16 * k - 12);
      Shift4(16 * k - 16);
    }
  }

  lemma Shift4(n: nat)
    ensures Shifted(n + 4) == 16 * Shifted(n)
  {
    assert Shifted(n + 4) == 2 * Shifted(n + 3) == 4 * Shifted(n + 2) == 8 * Shifted(n + 1);
  }

  lemma {:induction false} HexBounded(s: string)
    requires forall i :: 0 <= i < |s| ==> IsHexDigit(s[i])
    ensures HexValue(s) < Shifted(4 * |s|)
  {
    if s != "" {
      HexBounded(s[..|s| - 1]);
      Shift4(4 * |s| - 4);
    }
  }

  // -------------------------------------------------------- reading a field

  /** An unsigned integer of so many bits, hex of so many bytes, or the constant limb of BUY. */
  datatype Kind = Unsigned(bits: nat, nonzero: bool) | Hex(size: nat) | Fixed
  datatype Field = Field(name: string, kind: Kind, width: nat)

  /** A canonical unsigned integer: an int, or its decimal string. */
  function ReadUnsigned(value: Value, bits: nat, name: string, nonzero: bool): (r: Result<nat, CodecError>)
    ensures r.Ok? ==> r.value < Shifted(bits)
  {
    if value.Int? then Fit(value.number, bits, name, nonzero)
    else if value.Str? && IsCanonical(value.text) then Fit(DecimalValue(value.text), bits, name, nonzero)
    else Err(Malformed(name))
  }

  function Fit(parsed: int, bits: nat, name: string, nonzero: bool): (r: Result<nat, CodecError>)
    ensures r.Ok? ==> r.value == parsed < Shifted(bits)
  {
    if parsed < 0 || parsed >= Shifted(bits) || (nonzero && parsed == 0) then Err(DoesNotFit(name)) else Ok(parsed)
  }

  predicate IsHex(text: string, size: nat) {
    && |text| == 2 + 2 * size && size > 0
    && text[..2] == "0x"
    && forall i :: 2 <= i < |text| ==> IsHexDigit(text[i])
  }

  function ReadHex(value: Value, size: nat, name: string): (r: Result<nat, CodecError>)
    ensures r.Ok? ==> value.Str? && IsHex(value.text, size) && r.value == HexValue(value.text[2..])
  {
    if value.Str? && IsHex(value.text, size) then Ok(HexValue(value.text[2..])) else Err(Malformed(name))
  }

  function Read(field: Field, entries: map<string, Value>): Result<nat, CodecError>
    requires field.name in entries
  {
    match field.kind
    case Unsigned(bits, nonzero) => ReadUnsigned(entries[field.name], bits, field.name, nonzero)
    case Hex(size) => ReadHex(entries[field.name], size, field.name)
    case Fixed => Ok(0)
  }

  /** The field's limbs hold exactly the field's bits. */
  predicate Sized(field: Field) {
    match field.kind
    case Unsigned(bits, _) => bits == 16 * field.width
    case Hex(size) => 8 * size == 16 * field.width
    case Fixed => field.width == 1
  }

  lemma ReadFits(field: Field, entries: map<string, Value>)
    requires field.name in entries && Sized(field) && Read(field, entries).Ok?
    ensures Read(field, entries).value < Power(BASE, field.width)
  {
    ShiftedLimbs(field.width);
    if field.kind.Hex? {
      HexBounded(entries[field.name].text[2..]);
    } else if field.kind.Fixed? {
      assert Power(BASE, 1) == BASE * Power(BASE, 0);
    }
  }

  // ------------------------------------------------------------------ limbs

  /** The lowest `count` limbs, most significant first. */
  function Limbs(value: nat, count: nat): (r: seq<nat>)
    ensures |r| == count && forall i :: 0 <= i < count ==> r[i] < BASE
  {
    if count == 0 then [] else Limbs(value / BASE, count - 1) + [value % BASE]
  }

  /** The limbs read back. */
  function Unlimb(limbs: seq<nat>): nat {
    if limbs == [] then 0 else BASE * Unlimb(limbs[..|limbs| - 1]) + limbs[|limbs| - 1]
  }

  lemma {:induction false} LimbsRoundTrip(value: nat, count: nat)
    requires value < Power(BASE, count)
    ensures Unlimb(Limbs(value, count)) == value
  {
    if count > 0 {
      LimbsRoundTrip(value / BASE, count - 1);
      assert Limbs(value, count)[..count - 1] == Limbs(value / BASE, count - 1);
    }
  }

  /** value >> 16 * k. */
  function ShiftedDown(value: nat, k: nat): nat { if k == 0 then value else ShiftedDown(value / BASE, k - 1) }

  lemma {:induction false} LimbAt(value: nat, count: nat, i: nat)
    requires i < count
    ensures Limbs(value, count)[i] == ShiftedDown(value, count - 1 - i) % BASE
  {
    if i + 1 < count {
      LimbAt(value / BASE, count - 1, i);
    }
  }

  /** The shift loop; a value that does not fit is refused after its limbs were taken. */
  method TakeLimbs(value: nat, count: nat) returns (r: Result<seq<nat>, CodecError>)
    ensures r == CheckedLimbs(value, count)
  {
    var result := [];
    for shift := count downto 0
      invariant |result| == count - shift
      invariant forall i :: 0 <= i < |result| ==> result[i] == Limbs(value, count)[i]
    {
      LimbAt(value, count, |result|);
      result := result + [ShiftedDown(value, shift) % BASE];
    }
    assert result == Limbs(value, count);
    ShiftedLimbs(count);
    if value >= Shifted(16 * count) {
      return Err(LimbOverflow);
    }
    return Ok(result);
  }

  function CheckedLimbs(value: nat, count: nat): Result<seq<nat>, CodecError> {
    if value >= Shifted(16 * count) then Err(LimbOverflow) else Ok(Limbs(value, count))
  }

  // ---------------------------------------------------------------- encoding

  const FEATURES: seq<Field> :=
    [ Field("limitRoomBps", Unsigned(16, false), 1),
      Field("recentMoveOffsetBps", Unsigned(16, false), 1),
      Field("roundProgressBps", Unsigned(16, false), 1),
      Field("freshnessSeconds", Unsigned(16, false), 1),
      Field("bufferCategory", Unsigned(16, false), 1),
      Field("horizonCategory", Unsigned(16, false), 1) ]

  const LIMITS: seq<nat> := [2000, 2000, 10_000, 300, 2, 2]

  const IDENTITY: seq<Field> :=
    [ Field("protocolDomain", Hex(32), 16),
      Field("chainId", Unsigned(64, false), 4),
      Field("engine", Hex(20), 10),
      Field("executionAccount", Hex(20), 10),
      Field("token", Hex(20), 10),
      Field("side", Fixed, 1) ]

  const ORDER: seq<Field> :=
    [ Field("price", Unsigned(128, true), 8),
      Field("quantity", Unsigned(128, true), 8),
      Field("recoveryAddress", Hex(20), 10),
      Field("snapshotId", Hex(32), 16),
      Field("deploymentHash", Hex(32), 16),
      Field("modelBundleHash", Hex(32), 16) ]

  const MANDATE: seq<Field> :=
    [ Field("policyHash", Hex(32), 16),
      Field("mandateNonce", Hex(32), 16),
      Field("decisionSequence", Unsigned(32, false), 2),
      Field("publicSlot", Unsigned(64, false), 4),
      Field("expiresAt", Unsigned(64, false), 4) ]

  const BODY: seq<Field> := IDENTITY + ORDER + MANDATE

  function Names(fields: seq<Field>): set<string> { set f | f in fields :: f.name }

  predicate Present(entries: map<string, Value>, fields: seq<Field>) {
    forall i :: 0 <= i < |fields| ==> fields[i].name in entries
  }

  predicate AllSized(fields: seq<Field>) {
    forall i :: 0 <= i < |fields| ==> Sized(fields[i])
  }

  function Width(fields: seq<Field>): nat {
    if fields == [] then 0 else fields[0].width + Width(fields[1..])
  }

  /** Reads and appends the fields in order; the first that fails decides the error. */
  function EncodeFields(entries: map<string, Value>, fields: seq<Field>): Result<seq<nat>, CodecError>
    requires Present(entries, fields)
  {
    if fields == [] then Ok([])
    else
      var value :- Read(fields[0], entries);
      var limbs :- CheckedLimbs(value, fields[0].width);
      var rest :- EncodeFields(entries, fields[1..]);
      Ok(limbs + rest)
  }

  predicate OutsideLimits(features: seq<nat>) {
    exists i :: 0 <= i < |features| && i < |LIMITS| && features[i] > LIMITS[i]
  }

  function Encode(context: Value): Result<seq<nat>, CodecError> {
    if !context.Dict? || context.entries.Keys != Names(BODY) + {"features"} then Err(UnknownFields)
    else
      var features := context.entries["features"];
      if !features.Dict? || features.entries.Keys != Names(FEATURES) then Err(UnknownFeatures)
      else if context.entries["side"] != Str("BUY") then Err(BuyOnly)
      else EncodeTables(features.entries, context.entries)
  }

  function EncodeTables(features: map<string, Value>, entries: map<string, Value>): Result<seq<nat>, CodecError>
    requires Present(features, FEATURES) && Present(entries, BODY)
  {
    var head :- EncodeFields(features, FEATURES);
    if OutsideLimits(head) then Err(OutsideDomain)
    else
      var body :- EncodeFields(entries, BODY);
      if |head + body| != CONTEXT_LIMBS then Err(WrongLength) else Ok(head + body)
  }

  // ---------------------------------------------------------------- decoding

  /** What the fields of an accepted context are worth. */
  ghost predicate Reads(entries: map<string, Value>, fields: seq<Field>, values: seq<nat>)
    requires Present(entries, fields)
  {
    |values| == |fields| && forall i :: 0 <= i < |fields| ==> Read(fields[i], entries) == Ok(values[i])
  }

  /** Cuts the limbs at the field widths and reads each piece back. */
  function Decode(limbs: seq<nat>, fields: seq<Field>): seq<nat>
    requires |limbs| == Width(fields)
  {
    if fields == [] then []
    else [Unlimb(limbs[..fields[0].width])] + Decode(limbs[fields[0].width..], fields[1..])
  }

  /** Decoding recovers every field, and the only errors are those of the fields. */
  lemma {:induction false} FieldsRoundTrip(entries: map<string, Value>, fields: seq<Field>)
    requires Present(entries, fields) && AllSized(fields)
    ensures match EncodeFields(entries, fields)
            case Ok(limbs) =>
              && |limbs| == Width(fields)
              && (forall i :: 0 <= i < |limbs| ==> limbs[i] < BASE)
              && Reads(entries, fields, Decode(limbs, fields))
            case Err(error) => error.Malformed? || error.DoesNotFit?
  {
    if fields != [] && Read(fields[0], entries).Ok? {
      var field := fields[0];
      var value := Read(field, entries).value;
      ReadFits(field, entries);
      ShiftedLimbs(field.width);
      LimbsRoundTrip(value, field.width);
      FieldsRoundTrip(entries, fields[1..]);
      var rest := EncodeFields(entries, fields[1..]);
      if rest.Ok? {
        var limbs := Limbs(value, field.width) + rest.value;
        assert limbs[..field.width] == Limbs(value, field.width) && limbs[field.width..] == rest.value;
        assert Decode(limbs, fields) == [value] + Decode(rest.value, fields[1..]);
        assert forall i :: 1 <= i < |fields| ==> fields[i] == fields[1..][i - 1];
      }
    }
  }

  lemma {:induction false} WidthOfConcat(a: seq<Field>, b: seq<Field>)
    ensures Width(a + b) == Width(a) + Width(b)
  {
    if a == [] {
      assert a + b == b;
    } else {
      assert (a + b)[1..] == a[1..] + b;
      WidthOfConcat(a[1..], b);
    }
  }

  lemma WidthOfFive(s: seq<Field>)
    requires |s| == 5
    ensures Width(s) == s[0].width + s[1].width + s[2].width + s[3].width + s[4].width
  {
    assert s[1..][1..] == s[2..] && s[2..][1..] == s[3..] && s[3..][1..] == s[4..] && s[4..][1..] == [];
    assert Width(s[4..]) == s[4].width + Width([]);
    assert Width(s[2..]) == s[2].width + Width(s[3..]);
  }

  lemma WidthOfSix(s: seq<Field>)
    requires |s| == 6
    ensures Width(s) == s[0].width + s[1].width + s[2].width + s[3].width + s[4].width + s[5].width
  {
    WidthOfFive(s[1..]);
  }

  lemma TableWidths()
    ensures Width(FEATURES) == 6 && Width(BODY) == 167
  {
    hide Width;
    WidthOfSix(FEATURES);
    WidthOfConcat(IDENTITY + ORDER, MANDATE);
    WidthOfConcat(IDENTITY, ORDER);
    WidthOfSix(IDENTITY);
    WidthOfSix(ORDER);
    WidthOfFive(MANDATE);
  }

  lemma TablesAreSized()
    ensures AllSized(FEATURES) && AllSized(BODY)
  {
    assert AllSized(IDENTITY) && AllSized(ORDER) && AllSized(MANDATE);
  }

  // ------------------------------------------------------------- theorems

  ghost function FeaturesOf(context: Value): map<string, Value>
    requires Encode(context).Ok?
  {
    context.entries["features"].entries
  }

  lemma TablesArePresent(context: Value)
    requires context.Dict? && context.entries.Keys == Names(BODY) + {"features"}
    ensures Present(context.entries, BODY)
    ensures context.entries["features"].Dict? && context.entries["features"].entries.Keys == Names(FEATURES) ==>
              Present(context.entries["features"].entries, FEATURES)
  {
    forall i | 0 <= i < |BODY|
      ensures BODY[i].name in Names(BODY)
    {
      assert BODY[i] in BODY;
    }
    forall i | 0 <= i < |FEATURES|
      ensures FEATURES[i].name in Names(FEATURES)
    {
      assert FEATURES[i] in FEATURES;
    }
  }

  /** The limbs of an accepted context: their number and size, the features in
      their domains, and every field's value read back. */
  ghost predicate RoundTrips(features: map<string, Value>, entries: map<string, Value>, limbs: seq<nat>)
    requires Present(features, FEATURES) && Present(entries, BODY)
  {
    && |limbs| == CONTEXT_LIMBS && Width(FEATURES) == 6 && Width(BODY) == CONTEXT_LIMBS - 6
    && (forall i :: 0 <= i < |limbs| ==> limbs[i] < BASE)
    && !OutsideLimits(limbs[..6])
    && Reads(features, FEATURES, Decode(limbs[..6], FEATURES))
    && Reads(entries, BODY, Decode(limbs[6..], BODY))
  }

  lemma PartsRoundTrip(features: map<string, Value>, entries: map<string, Value>)
    requires Present(features, FEATURES) && Present(entries, BODY)
    ensures var (head, body) := (EncodeFields(features, FEATURES), EncodeFields(entries, BODY));
            && (head.Err? ==> head.error.Malformed? || head.error.DoesNotFit?)
            && (body.Err? ==> body.error.Malformed? || body.error.DoesNotFit?)
            && (head.Ok? && body.Ok? ==> |head.value + body.value| == CONTEXT_LIMBS)
            && (head.Ok? && body.Ok? && !OutsideLimits(head.value) ==>
                  RoundTrips(features, entries, head.value + body.value))
  {
    TableWidths();
    TablesAreSized();
    hide EncodeFields, Decode, Width, Reads, AllSized, OutsideLimits;
    FieldsRoundTrip(features, FEATURES);
    FieldsRoundTrip(entries, BODY);
    var (head, body) := (EncodeFields(features, FEATURES), EncodeFields(entries, BODY));
    if head.Ok? && body.Ok? {
      var limbs := head.value + body.value;
      assert limbs[..6] == head.value && limbs[6..] == body.value;
    }
  }

  /** An accepted context is 173 limbs of 16 bits, its features lie in their
      domains, decoding recovers the value of every field, and neither of the
      two internal failure checks can ever be the reason for a refusal. */
  lemma EncodingRoundTrips(context: Value)
    ensures match Encode(context)
            case Ok(limbs) =>
              && Present(FeaturesOf(context), FEATURES) && Present(context.entries, BODY)
              && RoundTrips(FeaturesOf(context), context.entries, limbs)
            case Err(error) => error != LimbOverflow && error != WrongLength
  {
    hide EncodeFields, RoundTrips, Names, OutsideLimits, Present;
    if context.Dict? && context.entries.Keys == Names(BODY) + {"features"} {
      TablesArePresent(context);
      var features := context.entries["features"];
      if features.Dict? && features.entries.Keys == Names(FEATURES) {
        PartsRoundTrip(features.entries, context.entries);
      }
    }
  }

  lemma WidthOfNext(fields: seq<Field>, i: nat)
    requires i < |fields|
    ensures Width(fields[..i + 1]) == Width(fields[..i]) + fields[i].width
  {
    assert fields[..i + 1] == fields[..i] + [fields[i]];
    WidthOfConcat(fields[..i], [fields[i]]);
    assert Width([fields[i]]) == fields[i].width + Width([]);
  }

  /** The value the limbs from `start` on hold. */
  function Piece(limbs: seq<nat>, start: nat, width: nat): nat
    requires start + width <= |limbs|
  {
    Unlimb(limbs[start..start + width])
  }

  lemma SliceOfSlice(limbs: seq<nat>, w: nat, start: nat, width: nat)
    requires w + start + width <= |limbs|
    ensures Piece(limbs[w..], start, width) == Piece(limbs, w + start, width)
  {
    assert limbs[w..][start..start + width] == limbs[w + start..w + start + width];
  }

  lemma WidthOfHead(fields: seq<Field>, i: nat)
    requires 0 < i <= |fields|
    ensures Width(fields[..i]) == fields[0].width + Width(fields[1..][..i - 1])
  {
    assert fields[..i][1..] == fields[1..][..i - 1];
  }

  lemma DecodeStep(limbs: seq<nat>, fields: seq<Field>)
    requires fields != [] && |limbs| == Width(fields)
    ensures var w := fields[0].width;
            w <= |limbs| && |limbs[w..]| == Width(fields[1..]) &&
            Decode(limbs, fields) == [Piece(limbs, 0, w)] + Decode(limbs[w..], fields[1..])
  {
  }

  /** The i-th decoded field lies behind the widths of the fields before it. */
  lemma {:induction false} DecodedAt(limbs: seq<nat>, fields: seq<Field>, i: nat)
    requires |limbs| == Width(fields) && i < |fields| == |Decode(limbs, fields)|
    ensures Width(fields[..i]) + fields[i].width <= |limbs|
    ensures Decode(limbs, fields)[i] == Piece(limbs, Width(fields[..i]), fields[i].width)
    decreases |fields|
  {
    DecodeStep(limbs, fields);
    var w := fields[0].width;
    if i == 0 {
      assert fields[..0] == [];
    } else {
      WidthOfHead(fields, i);
      hide Decode, Width, Piece;
      DecodedAt(limbs[w..], fields[1..], i - 1);
      SliceOfSlice(limbs, w, Width(fields[1..][..i - 1]), fields[i].width);
    }
  }

  /** Two accepted contexts spell the same fields. */
  ghost predicate SameContext(a: Value, b: Value)
    requires Encode(a).Ok? && Encode(b).Ok?
  {
    && Present(FeaturesOf(a), FEATURES) && Present(FeaturesOf(b), FEATURES)
    && Present(a.entries, BODY) && Present(b.entries, BODY)
    && (forall i :: 0 <= i < |FEATURES| ==> SameSpelling(FEATURES[i], FeaturesOf(a), FeaturesOf(b)))
    && (forall i :: 0 <= i < |BODY| ==> SameSpelling(BODY[i], a.entries, b.entries))
  }

  /** Equal limbs mean equal values, field by field, and nothing else does: the
      encoding forgets only how a value was spelled. */
  lemma EncodingIsInjective(a: Value, b: Value)
    requires Encode(a).Ok? && Encode(b).Ok?
    ensures Encode(a) == Encode(b) <==> SameContext(a, b)
  {
    EncodingRoundTrips(a);
    EncodingRoundTrips(b);
    if Encode(a) == Encode(b) {
      EqualLimbsSpellTheSame(a, b);
    }
    if SameContext(a, b) {
      SpellingIsForgotten(a, b);
    }
  }

  lemma EqualLimbsSpellTheSame(a: Value, b: Value)
    requires Encode(a).Ok? && Encode(a) == Encode(b)
    ensures SameContext(a, b)
  {
    EncodingRoundTrips(a);
    EncodingRoundTrips(b);
    assert a.Dict? && b.Dict?;
    var (ea, eb) := (a.entries, b.entries);
    hide Encode, Decode, Width, OutsideLimits, Read, SameSpelling;
    forall i | 0 <= i < |FEATURES|
      ensures SameSpelling(FEATURES[i], FeaturesOf(a), FeaturesOf(b))
    {
      SameReadSameSpelling(FEATURES[i], FeaturesOf(a), FeaturesOf(b));
    }
    forall i | 0 <= i < |BODY|
      ensures SameSpelling(BODY[i], ea, eb)
    {
      SameReadSameSpelling(BODY[i], ea, eb);
    }
  }

  lemma SpellingIsForgotten(a: Value, b: Value)
    requires Encode(a).Ok? && Encode(b).Ok? && SameContext(a, b)
    ensures Encode(a) == Encode(b)
  {
    assert a.Dict? && b.Dict?;
    hide EncodeFields, SameSpelling, OutsideLimits;
    SameFieldsSameLimbs(FeaturesOf(a), FeaturesOf(b), FEATURES);
    SameFieldsSameLimbs(a.entries, b.entries, BODY);
  }

  lemma {:induction false} SameFieldsSameLimbs(a: map<string, Value>, b: map<string, Value>, fields: seq<Field>)
    requires Present(a, fields) && Present(b, fields)
    requires EncodeFields(a, fields).Ok? && EncodeFields(b, fields).Ok?
    requires forall i :: 0 <= i < |fields| ==> SameSpelling(fields[i], a, b)
    ensures EncodeFields(a, fields) == EncodeFields(b, fields)
  {
    if fields != [] {
      SameSpellingSameRead(fields[0], a, b);
      assert forall i :: 0 <= i < |fields[1..]| ==> fields[1..][i] == fields[i + 1];
      hide SameSpelling;
      SameFieldsSameLimbs(a, b, fields[1..]);
    }
  }

  /** The string is the canonical decimal of the integer. */
  ghost predicate DecimalOf(text: Value, number: Value) {
    text.Str? && number.Int? && IsCanonical(text.text) && DecimalValue(text.text) == number.number
  }

  /** All that two spellings of one value may differ in: an integer against its
      canonical decimal string, or the case of hex digits. */
  ghost predicate SameSpelling(field: Field, a: map<string, Value>, b: map<string, Value>)
    requires field.name in a && field.name in b
  {
    var (v, w) := (a[field.name], b[field.name]);
    match field.kind
    case Unsigned(_, _) => v == w || DecimalOf(v, w) || DecimalOf(w, v)
    case Hex(_) => v.Str? && w.Str? && SameUpToCase(v.text, w.text)
    case Fixed => true
  }

  lemma SameReadSameSpelling(field: Field, a: map<string, Value>, b: map<string, Value>)
    requires field.name in a && field.name in b
    requires Read(field, a).Ok? && Read(field, a) == Read(field, b)
    ensures SameSpelling(field, a, b)
  {
    var (v, w) := (a[field.name], b[field.name]);
    if field.kind.Unsigned? && v.Str? && w.Str? {
      CanonicalIsUnique(v.text, w.text);
    } else if field.kind.Hex? {
      HexIsUnique(v.text[2..], w.text[2..]);
      assert forall i :: 2 <= i < |v.text| ==> v.text[i] == v.text[2..][i - 2] && w.text[i] == w.text[2..][i - 2];
      assert v.text[0] == v.text[..2][0] == '0' && w.text[0] == w.text[..2][0] == '0';
      assert v.text[1] == v.text[..2][1] == 'x' && w.text[1] == w.text[..2][1] == 'x';
    }
  }

  lemma SameSpellingSameRead(field: Field, a: map<string, Value>, b: map<string, Value>)
    requires field.name in a && field.name in b
    requires Read(field, a).Ok? && Read(field, b).Ok? && SameSpelling(field, a, b)
    ensures Read(field, a) == Read(field, b)
  {
    if field.kind.Hex? {
      var (s, t) := (a[field.name].text, b[field.name].text);
      assert forall i :: 0 <= i < |s| - 2 ==> s[2..][i] == s[i + 2] && t[2..][i] == t[i + 2];
      CaseIsForgotten(s[2..], t[2..]);
    }
  }
}
