/** The converter registry of `CrptApi`: document converters stored under
    upper-cased format keys, open to registration until the first document
    is created and frozen from then on. */
module Converters {
  import opened Wrappers
  import opened Strings

  /** A `DocumentConverter`: the JSON converter every client starts with, or
      one registered by the caller, told apart by an identity. */
  datatype Converter = Json | Custom(id: nat)

  /** What `registerConverter` answers, in the order its checks run: the
      format first (`normalizeFormatKey`), then the converter, then the
      flag. It succeeds exactly when all three checks pass. */
  function RegisterOutcome(format: Option<string>, converter: Option<Converter>, frozen: bool): (r: Outcome)
    ensures r.Pass? <==> !IsBlank(format) && converter.Some? && !frozen
  {
    if IsBlank(format) then Fail(IllegalArgument(NotBlankMessage("format")))
    else if converter.None? then Fail(NullPointer(NotNullMessage("converter")))
    else if frozen then Fail(IllegalState("Converters are frozen"))
    else Pass
  }

  /** The registry fields of a client: the map and its `convertersFrozen`
      flag. */
  class ConverterRegistry {
    var converters: map<string, Converter>
    var frozen: bool

    /** Every key is a normalised format key. */
    ghost predicate Valid()
      reads this
    {
      forall key :: key in converters ==> NormalizeFormatKey(Some(key)) == Success(key)
    }

    /** The registry a new client holds: the JSON converter under "MANUAL",
        not frozen. */
    constructor ()
      ensures Valid()
      ensures converters == map["MANUAL" := Json]
      ensures !frozen
    {
      converters := map[];
      frozen := false;
      new;
      ManualIsAKey();
      var outcome := Register(Some("MANUAL"), Some(Json));
    }

    /** `registerConverter`: stores the converter under the upper-cased
        format, replacing any converter stored there, unless the format is
        blank, the converter is null or the registry is frozen; then nothing
        changes. */
    method Register(format: Option<string>, converter: Option<Converter>) returns (outcome: Outcome)
      requires Valid()
      modifies this
      ensures Valid()
      ensures outcome == RegisterOutcome(format, converter, old(frozen))
      ensures frozen == old(frozen)
      ensures outcome.Pass? ==> converters == old(converters)[NormalizeFormatKey(format).value := converter.value]
      ensures outcome.Fail? ==> converters == old(converters)
    {
      var normalized := NormalizeFormatKey(format);
      if normalized.Failure? {
        return Fail(normalized.error);
      }
      var key := normalized.value;
      if converter.None? {
        return Fail(NullPointer(NotNullMessage("converter")));
      }
      if frozen {
        return Fail(IllegalState("Converters are frozen"));
      }
      FormatKeyIdempotent(format);
      converters := converters[key := converter.value];
      return Pass;
    }

    /** `freezeConvertersIfNeeded`: sets the flag, which nothing clears; the
        converters stay as they are. */
    method FreezeIfNeeded()
      modifies this
      ensures frozen
      ensures converters == old(converters)
    {
      if !frozen {
        frozen := true;
      }
    }
  }

  /** "MANUAL", the name of the built-in format, is already a key. */
  lemma ManualIsAKey()
    ensures NormalizeFormatKey(Some("MANUAL")) == Success("MANUAL")
  {
    assert !IsTrimmable("MANUAL"[0]);
    assert ToUpperCase("MANUAL") == "MANUAL";
  }

  /** Formats that differ only in the case of their letters meet the same
      fate: registering either one gives the same answer and stores under
      the same key, so the later registration replaces the earlier. */
  lemma RegisterIgnoresCase(a: string, b: string, converter: Option<Converter>, frozen: bool)
    requires EqualIgnoringCase(a, b)
    ensures RegisterOutcome(Some(a), converter, frozen) == RegisterOutcome(Some(b), converter, frozen)
    ensures NormalizeFormatKey(Some(a)) == NormalizeFormatKey(Some(b))
  {
    FormatKeyIgnoresCase(a, b);
  }
}
