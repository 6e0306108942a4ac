/** The context encoding as its reader sees it: which contexts are accepted, and
    at which limbs each field's value stands, digit by digit. Nothing here is
    said through the codec's own reading of a field. */
module ContextLayout {
  import opened Basics
  import opened Numerals
  import opened ContextCodec

  // ----------------------------------------------------------- the interface

  /** A feature up to a bound, an unsigned integer from a least value on, hex
      bytes, or the constant that stands for BUY. */
  datatype Form = Feature(most: nat) | Number(least: nat) | Bytes | Buy

  /** A field, and the limbs of 16 bits that hold it. */
  datatype Placed = Placed(name: string, start: nat, width: nat, form: Form)

  const FEATURES_AT: seq<Placed> :=
    [ Placed("limitRoomBps", 0, 1, Feature(2000)),
      Placed("recentMoveOffsetBps", 1, 1, Feature(2000)),
      Placed("roundProgressBps", 2, 1, Feature(10_000)),
      Placed("freshnessSeconds", 3, 1, Feature(300)),
      Placed("bufferCategory", 4, 1, Feature(2)),
      Placed("horizonCategory", 5, 1, Feature(2)) ]

  const BODY_AT: seq<Placed> :=
    [ Placed("protocolDomain", 6, 16, Bytes),
      Placed("chainId", 22, 4, Number(0)),
      Placed("engine", 26, 10, Bytes),
      Placed("executionAccount", 36, 10, Bytes),
      Placed("token", 46, 10, Bytes),
      Placed("side", 56, 1, Buy),
      Placed("price", 57, 8, Number(1)),
      Placed("quantity", 65, 8, Number(1)),
      Placed("recoveryAddress", 73, 10, Bytes),
      Placed("snapshotId", 83, 16, Bytes),
      Placed("deploymentHash", 99, 16, Bytes),
      Placed("modelBundleHash", 115, 16, Bytes),
      Placed("policyHash", 131, 16, Bytes),
      Placed("mandateNonce", 147, 16, Bytes),
      Placed("decisionSequence", 163, 2, Number(0)),
      Placed("publicSlot", 165, 4, Number(0)),
      Placed("expiresAt", 169, 4, Number(0)) ]

  /** The integer n, or its decimal numeral without leading zeros. */
  ghost predicate Denotes(value: Value, n: nat) {
    || value == Int(n)
    || (value.Str? && value.text != "" && (value.text[0] == '0' ==> |value.text| == 1) && Spells(10, value.text, n))
  }

  /** The value is one the field accepts, and worth n. */
  ghost predicate Carries(value: Value, p: Placed, n: nat) {
    && n < Power(0x1_0000, p.width)
    && match p.form
       case Feature(most) => Denotes(value, n) && n <= most
       case Number(least) => Denotes(value, n) && least <= n
       case Bytes =>
         value.Str? && |value.text| == 2 + 4 * p.width && value.text[..2] == "0x" && Spells(16, value.text[2..], n)
       case Buy => value == Str("BUY") && n == 0
  }

  /** The field's limbs are n to the base 2^16, most significant first. */
  ghost predicate Laid(limbs: seq<nat>, p: Placed, n: nat) {
    && p.start + p.width <= |limbs|
    && forall k :: p.start <= k < p.start + p.width ==>
         limbs[k] == DigitAt(0x1_0000, n, p.start + p.width - 1 - k)
  }

  /** A dictionary of exactly the eighteen fields, the features one of exactly the six. */
  ghost predicate WellNamed(context: Value) {
    && context.Dict?
    && context.entries.Keys == PlacedNames(BODY_AT) + {"features"}
    && context.entries["features"].Dict?
    && context.entries["features"].entries.Keys == PlacedNames(FEATURES_AT)
  }

  ghost function PlacedNames(places: seq<Placed>): set<string> { set p | p in places :: p.name }

  /** Some number is carried by the value. */
  ghost predicate Accepted(value: Value, p: Placed) { exists n :: Carries(value, p, n) }

  /** Every field is present and carries a number. */
  ghost predicate AllAccepted(entries: map<string, Value>, places: seq<Placed>) {
    forall i :: 0 <= i < |places| ==> places[i].name in entries && Accepted(entries[places[i].name], places[i])
  }

  /** Every number a field carries is laid at the field's limbs. */
  ghost predicate AllLaid(entries: map<string, Value>, limbs: seq<nat>, places: seq<Placed>) {
    forall i, n :: 0 <= i < |places| && places[i].name in entries && Carries(entries[places[i].name], places[i], n) ==>
      Laid(limbs, places[i], n)
  }

  // ------------------------------------------------------- the codec's tables

  /** The codec's field reads what this form accepts. */
  ghost predicate Matches(field: Field, p: Placed) {
    && field.name == p.name && field.width == p.width
    && match p.form
       case Feature(_) => field.kind == Unsigned(16 * p.width, false)
       case Number(least) => field.kind == Unsigned(16 * p.width, least == 1) && least <= 1
       case Bytes => field.kind == Hex(2 * p.width) && p.width > 0
       case Buy => field.kind == Fixed && p.width == 1
  }

  lemma FeaturesMatch(i: nat)
    requires i < 6
    ensures |FEATURES| == |LIMITS| == |FEATURES_AT| == 6
    ensures Matches(FEATURES[i], FEATURES_AT[i]) && FEATURES_AT[i].form == Feature(LIMITS[i])
    ensures FEATURES_AT[i].start == i && FEATURES_AT[i].width == 1
  {
  }

  lemma BodyMatches(i: nat)
    requires i < 17
    ensures |BODY| == |BODY_AT| == 17 && Matches(BODY[i], BODY_AT[i]) && !BODY_AT[i].form.Feature?
    ensures BODY_AT[i].form.Buy? ==> BODY_AT[i].name == "side"
  {
  }

  lemma NextStart(i: nat)
    requires i < 16
    ensures |BODY| == |BODY_AT| == 17 && BODY_AT[i + 1].start == BODY_AT[i].start + BODY[i].width
  {
  }

  lemma {:induction false} StartsAre(i: nat)
    requires i < 17
    ensures |BODY| == |BODY_AT| == 17 && 6 + Width(BODY[..i]) == BODY_AT[i].start
  {
    BodyMatches(i);
    if i == 0 {
      assert BODY[..0] == [];
    } else {
      hide *;
      StartsAre(i - 1);
      NextStart(i - 1);
      WidthOfNext(BODY, i - 1);
    }
  }

  lemma {:induction false} FeatureStarts(i: nat)
    requires i <= |FEATURES|
    ensures Width(FEATURES[..i]) == i
  {
    if i > 0 {
      FeatureStarts(i - 1);
      WidthOfNext(FEATURES, i - 1);
    }
  }

  // ---------------------------------------------------------- reading a field

  lemma UnsignedIs(value: Value, width: nat, nonzero: bool, name: string, n: nat)
    ensures ReadUnsigned(value, 16 * width, name, nonzero) == Ok(n) <==>
            n < Power(BASE, width) && Denotes(value, n) && (nonzero ==> n > 0)
  {
    ShiftedLimbs(width);
    if value.Str? {
      DecimalIs(value.text, n);
      hide DecimalValue, Spells, IsCanonical, Power, Shifted;
    }
  }

  lemma BytesAre(value: Value, width: nat, name: string, n: nat)
    requires width > 0
    ensures ReadHex(value, 2 * width, name) == Ok(n) <==>
            && n < Power(BASE, width) && value.Str? && |value.text| == 2 + 4 * width && value.text[..2] == "0x"
            && Spells(16, value.text[2..], n)
  {
    if value.Str? && |value.text| >= 2 {
      var digits := value.text[2..];
      ShiftedLimbs(width);
      HexIs(digits, n);
      assert forall i :: 0 <= i < |digits| ==> digits[i] == value.text[i + 2];
      assert forall i :: 2 <= i < |value.text| ==> value.text[i] == digits[i - 2];
      hide HexValue, Spells, Power, Shifted;
      if IsHex(value.text, 2 * width) {
        HexBounded(digits);
      }
    }
  }

  /** Reading a field succeeds exactly on what it accepts, with its value; the
      bounds of the features are checked apart. */
  lemma ReadIs(field: Field, p: Placed, entries: map<string, Value>, n: nat)
    requires Matches(field, p) && field.name in entries
    ensures !p.form.Buy? ==>
              (Read(field, entries) == Ok(n) && (p.form.Feature? ==> n <= p.form.most) <==>
               Carries(entries[p.name], p, n))
    ensures p.form.Buy? ==> Read(field, entries) == Ok(0)
  {
    var value := entries[field.name];
    hide Denotes, Spells, ReadUnsigned, ReadHex, Power;
    match p.form {
      case Feature(_) => UnsignedIs(value, p.width, false, p.name, n);
      case Number(least) => UnsignedIs(value, p.width, least == 1, p.name, n);
      case Bytes => BytesAre(value, p.width, p.name, n);
      case Buy =>
    }
  }

  lemma {:induction false} UnlimbIs(limbs: seq<nat>)
    requires forall j :: 0 <= j < |limbs| ==> limbs[j] < BASE
    ensures Unlimb(limbs) < Power(BASE, |limbs|)
    ensures forall j :: 0 <= j < |limbs| ==> limbs[j] == DigitAt(BASE, Unlimb(limbs), |limbs| - 1 - j)
  {
    if limbs != [] {
      var (init, last) := (limbs[..|limbs| - 1], limbs[|limbs| - 1]);
      var n := Unlimb(limbs);
      UnlimbIs(init);
      assert n / BASE == Unlimb(init) && n % BASE == last;
      DigitNext(BASE, n, |init|);
      hide DigitAt, Power, Unlimb;
      forall j | 0 <= j < |init|
        ensures limbs[j] == DigitAt(BASE, n, |limbs| - 1 - j)
      {
        DigitNext(BASE, n, |init| - 1 - j);
        assert limbs[j] == init[j];
      }
    }
  }

  lemma PieceIs(limbs: seq<nat>, p: Placed)
    requires p.start + p.width <= |limbs| && forall j :: 0 <= j < |limbs| ==> limbs[j] < BASE
    ensures Laid(limbs, p, Piece(limbs, p.start, p.width))
  {
    var piece := limbs[p.start..p.start + p.width];
    UnlimbIs(piece);
    hide Unlimb, DigitAt;
    forall k | p.start <= k < p.start + p.width
      ensures limbs[k] == DigitAt(BASE, Unlimb(piece), p.start + p.width - 1 - k)
    {
      assert limbs[k] == piece[k - p.start];
    }
  }

  // ------------------------------------------------------------ what is accepted

  lemma {:induction false} EncodesWhenRead(entries: map<string, Value>, fields: seq<Field>)
    requires Present(entries, fields) && AllSized(fields)
    ensures EncodeFields(entries, fields).Ok? <==> forall i :: 0 <= i < |fields| ==> Read(fields[i], entries).Ok?
  {
    if fields != [] {
      var (first, rest) := (fields[0], fields[1..]);
      assert forall i :: 0 <= i < |rest| ==> rest[i] == fields[i + 1];
      assert forall i :: 1 <= i < |fields| ==> fields[i] == rest[i - 1];
      EncodesWhenRead(entries, rest);
      if Read(first, entries).Ok? {
        ReadFits(first, entries);
        ShiftedLimbs(first.width);
      }
      hide Read, Shifted, Power;
    }
  }

  /** The six features' limbs are the values read. */
  lemma HeadIs(features: map<string, Value>)
    requires Present(features, FEATURES) && EncodeFields(features, FEATURES).Ok?
    ensures var head := EncodeFields(features, FEATURES).value;
            |head| == 6 && forall i :: 0 <= i < 6 ==> Read(FEATURES[i], features) == Ok(head[i])
  {
    TableWidths();
    TablesAreSized();
    FieldsRoundTrip(features, FEATURES);
    var head := EncodeFields(features, FEATURES).value;
    hide EncodeFields, Width, Decode, Read;
    forall i | 0 <= i < 6
      ensures Read(FEATURES[i], features) == Ok(head[i])
    {
      FeatureStarts(i);
      FeaturesMatch(i);
      DecodedAt(head, FEATURES, i);
      OneLimb(head, i);
    }
  }

  lemma OneLimb(limbs: seq<nat>, i: nat)
    requires i < |limbs|
    ensures Piece(limbs, i, 1) == limbs[i]
  {
    assert limbs[i..i + 1] == [limbs[i]];
    assert Unlimb([limbs[i]]) == BASE * Unlimb([]) + limbs[i];
  }

  lemma FieldAccepted(field: Field, p: Placed, entries: map<string, Value>)
    requires Matches(field, p) && field.name in entries && !p.form.Feature?
    requires p.form.Buy? ==> entries[p.name] == Str("BUY")
    ensures Read(field, entries).Ok? <==> Accepted(entries[p.name], p)
  {
    hide Read, Denotes, Spells, Power;
    if Read(field, entries).Ok? {
      ReadIs(field, p, entries, Read(field, entries).value);
      if p.form.Buy? {
        BuyIsCarried(p);
      }
    }
    if n :| Carries(entries[p.name], p, n) {
      ReadIs(field, p, entries, n);
    }
  }

  lemma BuyIsCarried(p: Placed)
    requires p.form.Buy?
    ensures Carries(Str("BUY"), p, 0)
  {
  }

  lemma BodyAccepted(entries: map<string, Value>)
    requires Present(entries, BODY) && "side" in entries && entries["side"] == Str("BUY")
    ensures EncodeFields(entries, BODY).Ok? <==> AllAccepted(entries, BODY_AT)
  {
    TablesAreSized();
    BodyMatches(0);
    EncodesWhenRead(entries, BODY);
    hide EncodeFields, Read, Accepted, AllSized;
    forall i | 0 <= i < 17
      ensures BODY_AT[i].name in entries
      ensures Read(BODY[i], entries).Ok? <==> Accepted(entries[BODY_AT[i].name], BODY_AT[i])
    {
      BodyMatches(i);
      FieldAccepted(BODY[i], BODY_AT[i], entries);
    }
  }

  lemma FeatureAccepted(features: map<string, Value>, i: nat)
    requires Present(features, FEATURES) && i < 6
    ensures |FEATURES| == |LIMITS| == |FEATURES_AT| == 6 && FEATURES_AT[i].name in features
    ensures Accepted(features[FEATURES_AT[i].name], FEATURES_AT[i]) <==>
            Read(FEATURES[i], features).Ok? && Read(FEATURES[i], features).value <= LIMITS[i]
  {
    FeaturesMatch(i);
    hide Read, Denotes, Spells, Power;
    var value := features[FEATURES_AT[i].name];
    if Read(FEATURES[i], features).Ok? {
      ReadIs(FEATURES[i], FEATURES_AT[i], features, Read(FEATURES[i], features).value);
    }
    if n :| Carries(value, FEATURES_AT[i], n) {
      ReadIs(FEATURES[i], FEATURES_AT[i], features, n);
    }
  }

  lemma FeaturesAccepted(features: map<string, Value>)
    requires Present(features, FEATURES)
    ensures var head := EncodeFields(features, FEATURES);
            head.Ok? && !OutsideLimits(head.value) <==> AllAccepted(features, FEATURES_AT)
  {
    TablesAreSized();
    FeaturesMatch(0);
    EncodesWhenRead(features, FEATURES);
    if EncodeFields(features, FEATURES).Ok? {
      HeadIs(features);
    }
    hide EncodeFields, Read, Accepted, AllSized;
    forall i | 0 <= i < 6
      ensures FEATURES_AT[i].name in features
      ensures Accepted(features[FEATURES_AT[i].name], FEATURES_AT[i]) <==>
              Read(FEATURES[i], features).Ok? && Read(FEATURES[i], features).value <= LIMITS[i]
    {
      FeatureAccepted(features, i);
    }
  }

  lemma NamesAre()
    ensures PlacedNames(BODY_AT) == Names(BODY) && PlacedNames(FEATURES_AT) == Names(FEATURES)
  {
    forall name
      ensures name in PlacedNames(BODY_AT) <==> name in Names(BODY)
    {
      BodyNameIn(name);
    }
    forall name
      ensures name in PlacedNames(FEATURES_AT) <==> name in Names(FEATURES)
    {
      FeatureNameIn(name);
    }
  }

  lemma BodyNameIn(name: string)
    ensures name in PlacedNames(BODY_AT) <==> name in Names(BODY)
  {
    BodyMatches(0);
    if f :| f in BODY && f.name == name {
      var i :| 0 <= i < 17 && BODY[i] == f;
      BodyMatches(i);
      assert BODY_AT[i] in BODY_AT;
    }
    if p :| p in BODY_AT && p.name == name {
      var i :| 0 <= i < 17 && BODY_AT[i] == p;
      BodyMatches(i);
      assert BODY[i] in BODY;
    }
  }

  lemma FeatureNameIn(name: string)
    ensures name in PlacedNames(FEATURES_AT) <==> name in Names(FEATURES)
  {
    FeaturesMatch(0);
    if f :| f in FEATURES && f.name == name {
      var i :| 0 <= i < 6 && FEATURES[i] == f;
      FeaturesMatch(i);
      assert FEATURES_AT[i] in FEATURES_AT;
    }
    if p :| p in FEATURES_AT && p.name == name {
      var i :| 0 <= i < 6 && FEATURES_AT[i] == p;
      FeaturesMatch(i);
      assert FEATURES[i] in FEATURES;
    }
  }

  /** Accepted, as the interface has it: the right names, and every field in its domain. */
  ghost predicate Acceptable(context: Value) {
    && WellNamed(context)
    && AllAccepted(context.entries["features"].entries, FEATURES_AT)
    && AllAccepted(context.entries, BODY_AT)
  }

  lemma BuyIsNeeded(entries: map<string, Value>)
    requires AllAccepted(entries, BODY_AT)
    ensures "side" in entries && entries["side"] == Str("BUY")
  {
    assert BODY_AT[5] == Placed("side", 56, 1, Buy);
    hide BODY_AT;
    assert BODY_AT[5].name in entries && Accepted(entries[BODY_AT[5].name], BODY_AT[5]);
  }

  /** A context is accepted exactly when it is acceptable. */
  lemma AcceptsExactly(context: Value)
    ensures Encode(context).Ok? <==> Acceptable(context)
  {
    NamesAre();
    hide PlacedNames, Names, EncodeFields, OutsideLimits, AllAccepted, Present, RoundTrips;
    if WellNamed(context) {
      TablesArePresent(context);
      var (features, entries) := (context.entries["features"].entries, context.entries);
      if AllAccepted(entries, BODY_AT) {
        BuyIsNeeded(entries);
      }
      SideIsPresent(entries);
      if entries["side"] == Str("BUY") {
        TablesAccepted(features, entries);
      }
      hide EncodeTables;
    }
  }

  lemma SideIsPresent(entries: map<string, Value>)
    requires Present(entries, BODY)
    ensures "side" in entries
  {
    assert BODY[5].name == "side";
  }

  lemma TablesAccepted(features: map<string, Value>, entries: map<string, Value>)
    requires Present(features, FEATURES) && Present(entries, BODY) && "side" in entries && entries["side"] == Str("BUY")
    ensures EncodeTables(features, entries).Ok? <==>
            AllAccepted(features, FEATURES_AT) && AllAccepted(entries, BODY_AT)
  {
    hide EncodeFields, OutsideLimits, AllAccepted, Present, RoundTrips;
    PartsRoundTrip(features, entries);
    FeaturesAccepted(features);
    BodyAccepted(entries);
  }

  // ---------------------------------------------------------------- the layout

  /** What was read for a field is what its limbs are worth. */
  lemma FieldLaid(field: Field, p: Placed, entries: map<string, Value>, limbs: seq<nat>, n: nat)
    requires Matches(field, p) && field.name in entries && Carries(entries[p.name], p, n)
    requires p.start + p.width <= |limbs| && forall j :: 0 <= j < |limbs| ==> limbs[j] < BASE
    requires Read(field, entries) == Ok(Piece(limbs, p.start, p.width))
    ensures Laid(limbs, p, n)
  {
    ReadIs(field, p, entries, n);
    PieceIs(limbs, p);
  }

  lemma BodyFieldLaid(entries: map<string, Value>, limbs: seq<nat>, i: nat, n: nat)
    requires |limbs| == CONTEXT_LIMBS && Width(BODY) == CONTEXT_LIMBS - 6 && Present(entries, BODY)
    requires forall j :: 0 <= j < |limbs| ==> limbs[j] < BASE
    requires Reads(entries, BODY, Decode(limbs[6..], BODY)) && i < 17 && |BODY| == |BODY_AT| == 17
    requires BODY_AT[i].name in entries && Carries(entries[BODY_AT[i].name], BODY_AT[i], n)
    ensures Laid(limbs, BODY_AT[i], n)
  {
    StartsAre(i);
    BodyMatches(i);
    hide Width, Decode, Read, Piece, Carries, Laid;
    DecodedAt(limbs[6..], BODY, i);
    SliceOfSlice(limbs, 6, BODY_AT[i].start - 6, BODY[i].width);
    FieldLaid(BODY[i], BODY_AT[i], entries, limbs, n);
  }

  lemma FeatureLaid(features: map<string, Value>, limbs: seq<nat>, i: nat, n: nat)
    requires |limbs| == CONTEXT_LIMBS && Width(FEATURES) == 6 && Present(features, FEATURES)
    requires forall j :: 0 <= j < |limbs| ==> limbs[j] < BASE
    requires Reads(features, FEATURES, Decode(limbs[..6], FEATURES)) && i < 6 && |FEATURES| == |FEATURES_AT| == 6
    requires FEATURES_AT[i].name in features && Carries(features[FEATURES_AT[i].name], FEATURES_AT[i], n)
    ensures Laid(limbs, FEATURES_AT[i], n)
  {
    FeatureStarts(i);
    FeaturesMatch(i);
    hide Width, Decode, Read, Carries, Laid;
    DecodedAt(limbs[..6], FEATURES, i);
    assert limbs[..6][i..i + 1] == limbs[i..i + 1];
    FieldLaid(FEATURES[i], FEATURES_AT[i], features, limbs, n);
  }

  lemma AllAreLaid(features: map<string, Value>, entries: map<string, Value>, limbs: seq<nat>)
    requires Present(features, FEATURES) && Present(entries, BODY) && RoundTrips(features, entries, limbs)
    ensures AllLaid(features, limbs, FEATURES_AT) && AllLaid(entries, limbs, BODY_AT)
  {
    FeaturesMatch(0);
    BodyMatches(0);
    hide Width, Decode, OutsideLimits, Reads, Present, Carries, Laid;
    forall i, n | 0 <= i < 6 && FEATURES_AT[i].name in features &&
                  Carries(features[FEATURES_AT[i].name], FEATURES_AT[i], n)
      ensures Laid(limbs, FEATURES_AT[i], n)
    {
      FeatureLaid(features, limbs, i, n);
    }
    forall i, n | 0 <= i < 17 && BODY_AT[i].name in entries && Carries(entries[BODY_AT[i].name], BODY_AT[i], n)
      ensures Laid(limbs, BODY_AT[i], n)
    {
      BodyFieldLaid(entries, limbs, i, n);
    }
  }

  /** The public layout of an accepted context: 173 limbs, every number a field
      carries at the field's own limbs, and 0 where BUY stands. */
  lemma PublicLayout(context: Value)
    requires Encode(context).Ok?
    ensures WellNamed(context) && |Encode(context).value| == 173
    ensures AllLaid(context.entries["features"].entries, Encode(context).value, FEATURES_AT)
    ensures AllLaid(context.entries, Encode(context).value, BODY_AT)
    ensures Encode(context).value[56] == 0
  {
    AcceptsExactly(context);
    EncodingRoundTrips(context);
    hide Encode, AllLaid, AllAccepted, Present, PlacedNames;
    var (entries, limbs) := (context.entries, Encode(context).value);
    AllAreLaid(FeaturesOf(context), entries, limbs);
    BuyIsNeeded(entries);
    BuyIsZero(entries, limbs);
  }

  lemma BuyIsZero(entries: map<string, Value>, limbs: seq<nat>)
    requires AllLaid(entries, limbs, BODY_AT) && "side" in entries && entries["side"] == Str("BUY")
    ensures |limbs| > 56 && limbs[56] == 0
  {
    var p := BODY_AT[5];
    assert p == Placed("side", 56, 1, Buy);
    BuyIsCarried(p);
    assert Laid(limbs, p, 0);
  }
}
