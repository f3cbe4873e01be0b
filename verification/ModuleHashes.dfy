/**
  Definition and activation hashes: a digest of the canonical text, and of the canonical text without
  the members that only concern presentation.
 */
module ModuleHashes {
  import opened Wrappers
  import opened Ordering
  import opened CanonicalJson
  import opened JsonText

  const PRESENTATION_KEYS: set<string> := {
    "defaultLocale", "defaultMessage", "description", "i18nMessages", "message", "sortOrder", "title", "translations"}

  /** The order of keys and the digest of a text. */
  datatype Hashing = Hashing(le: Order, digest: string -> string)

  function Sha256(v: Json, h: Hashing): Option<string> {
    match CanonicalText(v, h.le)
    case None => None
    case Some(text) => Some(h.digest(text))
  }

  function DefinitionHash(v: Json, h: Hashing): Option<string> { Sha256(v, h) }

  function ActivationHash(v: Json, h: Hashing): Option<string> { Sha256(Project(v, PRESENTATION_KEYS), h) }

  /** The members that only concern presentation are exactly those with one of these eight keys. */
  lemma PresentationMembers(key: string, value: Json)
    ensures Project(Obj([Keyed(key, value)]), PRESENTATION_KEYS) == Obj([])
       <==> || key == "title" || key == "description" || key == "message" || key == "translations"
            || key == "defaultLocale" || key == "defaultMessage" || key == "i18nMessages" || key == "sortOrder"
  {
    var members := [Keyed(key, value)];
    assert members[1..] == [];
    assert ProjectMembers(members[1..], PRESENTATION_KEYS) == [];
    assert ProjectMembers(members, PRESENTATION_KEYS)
        == if key in PRESENTATION_KEYS then [] else [Keyed(key, Project(value, PRESENTATION_KEYS))];
  }

  /** Two different texts with one digest. */
  predicate Collision(h: Hashing, s: string, t: string) { s != t && h.digest(s) == h.digest(t) }

  /**
    Two definitions have the same hash exactly when they differ at most in the order of members and in
    undefined ones, or their canonical texts are a collision of the digest.
   */
  lemma DefinitionHashSeesContent(a: Json, b: Json, h: Hashing)
    requires TotalOrder(h.le) && IsJson(a) && IsJson(b)
    ensures DefinitionHash(a, h).Some? && CanonicalText(a, h.le).Some? && CanonicalText(b, h.le).Some?
    ensures DefinitionHash(a, h) == DefinitionHash(b, h)
       <==> Same(a, b, {}) || Collision(h, CanonicalText(a, h.le).value, CanonicalText(b, h.le).value)
  {
    hide CanonicalText, Same, IsJson;
    CanonicalTextEqualIffSame(a, b, h.le);
  }

  /**
    Two definitions have the same activation hash exactly when they differ, at any depth, at most in the
    order of members, undefined ones and presentation ones, or the texts that are left are a collision.
   */
  lemma ActivationHashIgnoresPresentation(a: Json, b: Json, h: Hashing)
    requires TotalOrder(h.le) && IsJson(a) && IsJson(b)
    ensures var p, q :=
              CanonicalText(Project(a, PRESENTATION_KEYS), h.le), CanonicalText(Project(b, PRESENTATION_KEYS), h.le);
            && ActivationHash(a, h).Some? && p.Some? && q.Some?
            && (ActivationHash(a, h) == ActivationHash(b, h)
                <==> Same(a, b, PRESENTATION_KEYS) || Collision(h, p.value, q.value))
  {
    ProjectKeeps(a, PRESENTATION_KEYS);
    ProjectKeeps(b, PRESENTATION_KEYS);
    ProjectionsSameIff(a, b, PRESENTATION_KEYS);
    hide CanonicalText, Same, Project, WellFormed, Supported, Collision;
    DefinitionHashSeesContent(Project(a, PRESENTATION_KEYS), Project(b, PRESENTATION_KEYS), h);
  }

  /**
    Whatever happens to presentation members in an object at any depth (added, removed, changed or moved,
    with any value), the activation hash stays the same.
   */
  lemma PresentationEditKeepsActivation(v: Json, path: seq<nat>, edited: seq<Keyed<Json>>, h: Hashing)
    requires At(v, path).Some? && At(v, path).value.Obj?
    requires Retained(At(v, path).value.members, PRESENTATION_KEYS) == Retained(edited, PRESENTATION_KEYS)
    ensures ActivationHash(Put(v, path, Obj(edited)), h) == ActivationHash(v, h)
  {
    hide Retained, Project, At, Put;
    NestedEditUnseen(v, path, edited, PRESENTATION_KEYS);
  }
}
