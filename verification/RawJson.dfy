/** Comparison of raw JSON sections up to formatting: `canonicalJSON` and `rawEqualNormalized`. */
module RawJson {
  import opened Options
  import opened Json

  /**
   What the JSON library makes of a text. `decode` is the first value of the text, `valid` says that the
   whole text is one value, `elements` splits an array text and `tag` reads a "tag" field; the last two fail
   on texts of another shape.
   */
  datatype Codec = Codec(
    decode: string -> Option<Json>,
    valid: string -> bool,
    elements: string -> Option<seq<string>>,
    tag: string -> Option<string>)

  /** Decoded numbers are JSON number literals. */
  ghost predicate Sound(c: Codec) {
    forall text :: c.decode(text).Some? ==> WellFormed(c.decode(text).value)
  }

  /** Canonical text; the empty text stands for both an absent section and null. */
  function CanonicalJson(c: Codec, raw: string): Option<string> {
    if raw == "" then Some("")
    else
      match c.decode(raw)
      case None => None
      case Some(Null) => Some("")
      case Some(v) => Some(Render(v))
  }

  predicate RawEqual(c: Codec, a: string, b: string) {
    || a == b
    || (&& CanonicalJson(c, a).Some?
        && CanonicalJson(c, b).Some?
        && CanonicalJson(c, a) == CanonicalJson(c, b))
  }

  /** What a raw section says once formatting is forgotten. */
  datatype Meaning = Absent | Parsed(value: Json) | Unparsable(text: string)

  function MeaningOf(c: Codec, raw: string): Meaning {
    if raw == "" then Absent
    else
      match c.decode(raw)
      case None => Unparsable(raw)
      case Some(Null) => Absent
      case Some(v) => Parsed(v)
  }

  /** The comparison is equality of meanings, hence an equivalence relation. */
  lemma RawEqualIsMeaning(c: Codec, a: string, b: string)
    requires Sound(c)
    ensures RawEqual(c, a, b) <==> MeaningOf(c, a) == MeaningOf(c, b)
  {
    hide Render, WellFormed;
    CanonicalText(c, a);
    CanonicalText(c, b);
    if MeaningOf(c, a).Parsed? && MeaningOf(c, b).Parsed? && CanonicalJson(c, a) == CanonicalJson(c, b) {
      RenderInjective(MeaningOf(c, a).value, MeaningOf(c, b).value);
    }
  }

  lemma CanonicalText(c: Codec, raw: string)
    requires Sound(c)
    ensures match MeaningOf(c, raw)
            case Absent => CanonicalJson(c, raw) == Some("")
            case Parsed(v) => WellFormed(v) && CanonicalJson(c, raw) == Some(Render(v)) && Render(v) != ""
            case Unparsable(t) => t == raw && CanonicalJson(c, raw) == None
  {
    hide Render;
    if MeaningOf(c, raw).Parsed? {
      FirstChar(MeaningOf(c, raw).value, "");
    }
  }

  lemma RawEqualEquivalence(c: Codec, x: string, y: string, z: string)
    requires Sound(c)
    ensures RawEqual(c, x, x)
    ensures RawEqual(c, x, y) ==> RawEqual(c, y, x)
    ensures RawEqual(c, x, y) && RawEqual(c, y, z) ==> RawEqual(c, x, z)
  {
    hide RawEqual, MeaningOf;
    RawEqualIsMeaning(c, x, x);
    RawEqualIsMeaning(c, x, y);
    RawEqualIsMeaning(c, y, x);
    RawEqualIsMeaning(c, y, z);
    RawEqualIsMeaning(c, x, z);
  }

  /** The value a section stands for: nothing for what cannot be decoded, null for an absent one. */
  function ValueOf(c: Codec, raw: string): Option<Json> {
    if raw == "" then Some(Null) else c.decode(raw)
  }

  /** Sections are equal exactly if their texts are, or they decode to one value. */
  lemma RawEqualExactly(c: Codec, a: string, b: string)
    requires Sound(c)
    ensures RawEqual(c, a, b) <==> a == b || (ValueOf(c, a).Some? && ValueOf(c, a) == ValueOf(c, b))
  {
    hide RawEqual;
    RawEqualIsMeaning(c, a, b);
  }
}
