/**
 * TranslateViewModel.Language: a language identified by its code. Two
 * languages are equal, and hash alike, exactly when their codes are; they are
 * ordered by their display names. The display name comes from the platform
 * locale service (Locale.getDisplayName), so it is a parameter here: any
 * function from codes to names.
 */
module Languages {
  import JavaString

  datatype Language = Language(code: string)

  /** What equals(Object o) may be handed: a Language, or anything else
      (null, or an object of another class). */
  datatype Other = OfLanguage(language: Language) | NotALanguage

  /** equals: the same object, or another Language with an equal code. */
  function Equals(self: Language, o: Other): (r: bool)
    ensures r <==> o == OfLanguage(self)
  {
    match o
    case OfLanguage(other) => other.code == self.code
    case NotALanguage => false
  }

  /** hashCode: the hash of the code. */
  function HashCode(self: Language): (h: int)
    ensures -JavaString.TWO_TO_31 <= h < JavaString.TWO_TO_31
  {
    JavaString.HashCode(self.code)
  }

  /** compareTo: compares the display names as strings. */
  function CompareTo(self: Language, o: Language, displayName: string -> string): int
  {
    JavaString.CompareTo(displayName(self.code), displayName(o.code))
  }

  /** equals and hashCode agree: equal languages hash alike. */
  lemma EqualsImpliesSameHash(a: Language, b: Language)
    requires Equals(a, OfLanguage(b))
    ensures HashCode(a) == HashCode(b)
  {
  }

  /** compareTo is antisymmetric, as Comparable requires. */
  lemma CompareToAntisymmetric(a: Language, b: Language, displayName: string -> string)
    ensures CompareTo(b, a, displayName) == -CompareTo(a, b, displayName)
  {
    JavaString.CompareToAntisymmetric(displayName(a.code), displayName(b.code));
  }

  /** compareTo is transitive, as Comparable requires. */
  lemma CompareToTransitive(a: Language, b: Language, c: Language, displayName: string -> string)
    requires CompareTo(a, b, displayName) <= 0 && CompareTo(b, c, displayName) <= 0
    ensures CompareTo(a, c, displayName) <= 0
  {
    JavaString.CompareToTransitive(displayName(a.code), displayName(b.code), displayName(c.code));
  }

  /** compareTo returns zero exactly when the display names coincide; so equal
      languages compare as zero, and for languages whose display names differ a
      zero comparison means equality. */
  lemma CompareToZero(a: Language, b: Language, displayName: string -> string)
    ensures CompareTo(a, b, displayName) == 0 <==> displayName(a.code) == displayName(b.code)
    ensures Equals(a, OfLanguage(b)) ==> CompareTo(a, b, displayName) == 0
  {
    JavaString.CompareToZero(displayName(a.code), displayName(b.code));
  }

  /** Two distinct codes sharing a display name compare as zero although the
      languages are not equal: the ordering is not consistent with equals. */
  lemma SharedDisplayNameBreaksConsistency(a: Language, b: Language, displayName: string -> string)
    requires a.code != b.code && displayName(a.code) == displayName(b.code)
    ensures CompareTo(a, b, displayName) == 0 && !Equals(a, OfLanguage(b))
  {
    JavaString.CompareToZero(displayName(a.code), displayName(b.code));
  }
}
