/** A parameter on its way from the deserialiser to the validator of its schema. */
module ParamValidators {
  import opened ArrayDenotes
  import opened ArrayParams
  import opened Common
  import opened Json
  import opened Tokens
  import Machine
  import Schema
  import SharedValidator
  import WrittenTexts

  class ParamValidator {
    const deserializer_: ArrayDeserializer
    const validator_: SharedValidator.JsonValidator

    constructor (g: Settings, schema: Schema.Schema, convert: Converter)
      ensures deserializer_.g == g && validator_.convert == convert
      ensures fresh(validator_.validator_) && validator_.validator_.root == schema && Ready()
    {
      deserializer_ := new ArrayDeserializer(g);
      validator_ := new SharedValidator.JsonValidator(schema, convert);
    }

    ghost predicate Ready()
      reads validator_.validator_
    {
      validator_.validator_.State() == Machine.Fresh(validator_.validator_.root, [])
    }

    /** The verdict the deserialised text deserves; none where the deserialiser throws. */
    method ValidateParam(s: Bytes) returns (verdict: Option<SharedValidator.Verdict>)
      requires Ready()
      modifies validator_.validator_
      ensures Ready()
      ensures match Deserialized(deserializer_.g, s)
              case None => verdict == None
              case Some(text) =>
                verdict.Some?
                && SharedValidator.Deserves(validator_.validator_.root, text, validator_.convert, verdict.value)
    {
      hide Deserialized, SharedValidator.Deserves;
      var ret := deserializer_.Deserialize(s);
      if ret.None? { return None; }
      var v := validator_.Validate(ret.value);
      verdict := Some(v);
    }
  }

  /** In every style, a parameter that spells strings without quote, backslash and control byte
      gets the verdict of its schema on the array of those strings. */
  lemma StringsGetTheirVerdict(style: ParamStyle, explode: bool, name: Bytes, ts: seq<Bytes>, ds: seq<Bytes>,
                               root: Schema.Schema, convert: Converter, verdict: SharedValidator.Verdict)
    requires |ts| == |ds| > 0 && ts[|ts| - 1] != [] && forall i | 0 <= i < |ts| :: Spells(ts[i], ds[i]) && PlainText(ds[i])
    requires forall i | 0 <= i < |ts| :: SettingsFor(style, explode, name, StringItems).separator !in ts[i]
    ensures var text := Deserialized(SettingsFor(style, explode, name, StringItems), StyleText(style, explode, name, ts));
      && text.Some?
      && (SharedValidator.Deserves(root, text.value, convert, verdict) <==>
          (verdict == if Schema.Valid(root, Strings(ds)) then SharedValidator.Accepted else SharedValidator.Rejected))
  {
    hide *;
    SpelledStringsDeserialize(style, explode, name, ts, ds);
    TextDenotesStrings(ds, convert);
    SharedValidator.DenotedVerdict(root, ArrayText(QuotedAll(ds)), convert, Strings(ds), verdict);
  }

  /** So does a parameter of booleans or of integers as the writer spells them. */
  lemma ListGetsItsVerdict(style: ParamStyle, explode: bool, name: Bytes, items: ItemType, ts: seq<Bytes>, vs: seq<Value>,
                           root: Schema.Schema, convert: Converter, verdict: SharedValidator.Verdict)
    requires ts != [] && AreItems(SettingsFor(style, explode, name, items), ts, Texts(vs))
    requires ts[|ts| - 1] != [] && forall i | 0 <= i < |vs| :: WrittenTexts.Plain(vs[i])
    ensures var text := Deserialized(SettingsFor(style, explode, name, items), StyleText(style, explode, name, ts));
      && text.Some?
      && (SharedValidator.Deserves(root, text.value, convert, verdict) <==>
          (verdict == if Schema.Valid(root, Array(vs)) then SharedValidator.Accepted else SharedValidator.Rejected))
  {
    hide *;
    EveryStyleDeserializes(style, explode, name, items, ts, Texts(vs));
    TextsDenoteArray(vs, convert);
    SharedValidator.DenotedVerdict(root, ArrayText(Texts(vs)), convert, Array(vs), verdict);
  }
}
