/**
  The business module registry: definitions and their contributions are sorted, shared module codes are
  rejected, and the hashes of the result do not depend on the order anything was given in.
 */
module ModuleRegistry {
  import opened Wrappers
  import opened Ordering
  import opened CanonicalJson
  import opened JsonText
  import opened ModuleHashes

  /** A definition: its code, its other members, and its contribution lists by name. */
  datatype Definition = Definition(moduleCode: string, header: seq<Keyed<Json>>, contributions: seq<Keyed<seq<Json>>>)

  /** Hashing, and what identifies a contribution in the list of this name. */
  datatype Settings = Settings(hashing: Hashing, identity: (string, Json) -> string)

  datatype Entry = Entry(definition: Definition, definitionHash: string, activationHash: string)

  datatype Registry = Registry(modules: seq<Entry>, registryHash: string)

  datatype RegistryError = DuplicateCode(moduleCode: string) | NotJson

  // ----- Normalization

  function Identified(name: string, values: seq<Json>, s: Settings): seq<Keyed<Json>> {
    seq(|values|, i requires 0 <= i < |values| => Keyed(s.identity(name, values[i]), values[i]))
  }

  function SortCollection(name: string, values: seq<Json>, s: Settings): seq<Json> {
    ValuesOf(Sort(Identified(name, values, s), s.hashing.le))
  }

  function NormalizeContributionOrder(d: Definition, s: Settings): Definition {
    d.(contributions := seq(|d.contributions|, i requires 0 <= i < |d.contributions| =>
         Keyed(d.contributions[i].key, SortCollection(d.contributions[i].key, d.contributions[i].value, s))))
  }

  function ToJson(d: Definition): Json {
    Obj([Keyed("moduleCode", Str(d.moduleCode))] + d.header + [Keyed("contributions",
      Obj(seq(|d.contributions|,
        i requires 0 <= i < |d.contributions| => Keyed(d.contributions[i].key, Arr(d.contributions[i].value)))))])
  }

  // ----- The registry

  function ByCode(definitions: seq<Definition>, s: Settings): seq<Keyed<Definition>> {
    seq(|definitions|, i requires 0 <= i < |definitions| =>
      Keyed(definitions[i].moduleCode, NormalizeContributionOrder(definitions[i], s)))
  }

  /** The first code, from `from` on, that equals the one before it. */
  function AdjacentDuplicate(codes: seq<string>, from: nat): (duplicate: Option<string>)
    requires 1 <= from
    ensures duplicate.Some? <==> exists i | from <= i < |codes| :: codes[i] == codes[i - 1]
    ensures duplicate.Some? ==> exists i | from <= i < |codes| :: codes[i] == codes[i - 1] == duplicate.value
    decreases |codes| - from
  {
    if from >= |codes| then None
    else if codes[from] == codes[from - 1] then Some(codes[from]) else AdjacentDuplicate(codes, from + 1)
  }

  function Entries(definitions: seq<Definition>, h: Hashing): Option<seq<Entry>> {
    if definitions == [] then Some([])
    else
      var value := ToJson(definitions[0]);
      match (DefinitionHash(value, h), ActivationHash(value, h), Entries(definitions[1..], h))
      case (Some(complete), Some(behavior), Some(rest)) => Some([Entry(definitions[0], complete, behavior)] + rest)
      case _ => None
  }

  function Summary(e: Entry): Json {
    Obj([Keyed("moduleCode", Str(e.definition.moduleCode)), Keyed("definitionHash", Str(e.definitionHash)),
         Keyed("activationHash", Str(e.activationHash))])
  }

  function Summaries(modules: seq<Entry>): Json {
    Arr(seq(|modules|, i requires 0 <= i < |modules| => Summary(modules[i])))
  }

  function RegistryOf(sorted: seq<Keyed<Definition>>, h: Hashing): Result<Registry, RegistryError> {
    match AdjacentDuplicate(KeysOf(sorted), 1)
    case Some(code) => Err(DuplicateCode(code))
    case None =>
      match Entries(ValuesOf(sorted), h)
      case None => Err(NotJson)
      case Some(modules) =>
        match Sha256(Summaries(modules), h)
        case None => Err(NotJson)
        case Some(hash) => Ok(Registry(modules, hash))
  }

  function CreateBusinessModuleRegistry(definitions: seq<Definition>, s: Settings): Result<Registry, RegistryError> {
    RegistryOf(Sort(ByCode(definitions, s), s.hashing.le), s.hashing)
  }

  // ----- The order of definitions

  predicate SharedCode(definitions: seq<Definition>) {
    exists i, j | 0 <= i < j < |definitions| :: definitions[i].moduleCode == definitions[j].moduleCode
  }

  predicate Repeats(keys: seq<string>) { exists i, j | 0 <= i < j < |keys| :: keys[i] == keys[j] }

  lemma {:induction false} RepeatsIffCounts(keys: seq<string>)
    ensures Repeats(keys) <==> exists k :: multiset(keys)[k] >= 2
    decreases |keys|
  {
    if keys != [] {
      var rest := keys[1..];
      assert keys == [keys[0]] + rest;
      RepeatsIffCounts(rest);
      forall k ensures multiset(keys)[k] == multiset(rest)[k] + if k == keys[0] then 1 else 0 {}
      if keys[0] in rest {
        var j :| 0 <= j < |rest| && rest[j] == keys[0];
        assert keys[0] == keys[j + 1];
        assert multiset(keys)[keys[0]] >= 2;
      } else {
        assert multiset(rest)[keys[0]] == 0;
        RepeatsTail(keys);
      }
    }
  }

  lemma RepeatsTail(keys: seq<string>)
    requires keys != [] && keys[0] !in keys[1..]
    ensures Repeats(keys) <==> Repeats(keys[1..])
  {
    var rest := keys[1..];
    if i, j :| 0 <= i < j < |keys| && keys[i] == keys[j] {
      assert keys[j] == rest[j - 1];
      assert i > 0 && rest[i - 1] == rest[j - 1];
    }
    if i, j :| 0 <= i < j < |rest| && rest[i] == rest[j] { assert keys[i + 1] == keys[j + 1]; }
  }

  lemma PermutationsRepeatTogether(a: seq<string>, b: seq<string>)
    requires multiset(a) == multiset(b)
    ensures Repeats(a) <==> Repeats(b)
  {
    RepeatsIffCounts(a);
    RepeatsIffCounts(b);
  }

  lemma SortedRepeatsAreAdjacent(codes: seq<string>, le: Order)
    requires TotalOrder(le) && SortedStrings(codes, le)
    ensures AdjacentDuplicate(codes, 1).Some? <==> Repeats(codes)
  {
    if i, j :| 0 <= i < j < |codes| && codes[i] == codes[j] {
      assert le(codes[i], codes[i + 1]) && le(codes[i + 1], codes[j]);
      assert codes[i + 1] == codes[i + 1 - 1];
    }
    if i :| 1 <= i < |codes| && codes[i] == codes[i - 1] { assert codes[i - 1] == codes[i]; }
  }

  lemma SharedCodeRepeats(definitions: seq<Definition>, s: Settings)
    ensures SharedCode(definitions) <==> Repeats(KeysOf(ByCode(definitions, s)))
  {
    var keys := KeysOf(ByCode(definitions, s));
    assert forall i | 0 <= i < |definitions| :: keys[i] == definitions[i].moduleCode;
    if i, j :| 0 <= i < j < |keys| && keys[i] == keys[j] {
      assert definitions[i].moduleCode == definitions[j].moduleCode;
    }
    if i, j :| 0 <= i < j < |definitions| && definitions[i].moduleCode == definitions[j].moduleCode {
      assert keys[i] == keys[j];
    }
  }

  /** Under a total order, equal codes are adjacent after sorting: comparing neighbours finds every shared code. */
  lemma AdjacentCheckComplete(definitions: seq<Definition>, s: Settings)
    requires TotalOrder(s.hashing.le)
    ensures AdjacentDuplicate(KeysOf(Sort(ByCode(definitions, s), s.hashing.le)), 1).Some? <==> SharedCode(definitions)
  {
    var le, xs := s.hashing.le, ByCode(definitions, s);
    SharedCodeRepeats(definitions, s);
    SortOrders(xs, le);
    KeysMultiset(Sort(xs, le), xs);
    PermutationsRepeatTogether(KeysOf(Sort(xs, le)), KeysOf(xs));
    assert SortedStrings(KeysOf(Sort(xs, le)), le);
    hide Repeats, Sort, SharedCode, TotalOrder;
    SortedRepeatsAreAdjacent(KeysOf(Sort(xs, le)), le);
  }

  predicate ListsJson(d: Definition) { IsJson(ToJson(d)) }

  lemma {:induction false} EntriesExist(definitions: seq<Definition>, h: Hashing)
    requires TotalOrder(h.le) && forall i | 0 <= i < |definitions| :: ListsJson(definitions[i])
    ensures Entries(definitions, h).Some?
    ensures var modules := Entries(definitions, h).value;
            |modules| == |definitions|
            && forall i | 0 <= i < |modules| ::
                 modules[i].definition == definitions[i]
                 && Some(modules[i].definitionHash) == DefinitionHash(ToJson(definitions[i]), h)
                 && Some(modules[i].activationHash) == ActivationHash(ToJson(definitions[i]), h)
    decreases |definitions|
  {
    hide ToJson, TotalOrder, IsJson, ListsJson, DefinitionHash, ActivationHash;
    if definitions != [] {
      EntryExists(definitions[0], h);
      EntriesExist(definitions[1..], h);
      assert forall i | 0 <= i < |definitions[1..]| :: definitions[1..][i] == definitions[i + 1];
    }
  }

  lemma EntryExists(d: Definition, h: Hashing)
    requires TotalOrder(h.le) && ListsJson(d)
    ensures DefinitionHash(ToJson(d), h).Some? && ActivationHash(ToJson(d), h).Some?
  {
    var value := ToJson(d);
    hide ToJson, TotalOrder, IsJson, DefinitionHash, ActivationHash, Same, CanonicalText, Project;
    DefinitionHashSeesContent(value, value, h);
    ActivationHashIgnoresPresentation(value, value, h);
  }

  lemma SummariesAreJson(modules: seq<Entry>)
    ensures IsJson(Summaries(modules))
  {
    forall i | 0 <= i < |modules| ensures WellFormed(Summary(modules[i])) && Supported(Summary(modules[i])) {}
  }

  function Normalizations(definitions: seq<Definition>, s: Settings): seq<Definition> {
    ValuesOf(ByCode(definitions, s))
  }

  /** All definitions are JSON once normalized. */
  predicate AllJson(definitions: seq<Definition>, s: Settings) {
    forall d | d in Normalizations(definitions, s) :: ListsJson(d)
  }

  lemma SortedEntriesExist(definitions: seq<Definition>, s: Settings)
    requires TotalOrder(s.hashing.le) && AllJson(definitions, s)
    ensures var sorted := ValuesOf(Sort(ByCode(definitions, s), s.hashing.le));
            multiset(sorted) == multiset(Normalizations(definitions, s))
              && forall i | 0 <= i < |sorted| :: ListsJson(sorted[i])
  {
    var le, xs := s.hashing.le, ByCode(definitions, s);
    SortOrders(xs, le);
    ValuesMultiset(Sort(xs, le), xs);
    hide Sort, TotalOrder, ListsJson;
    var sorted := ValuesOf(Sort(xs, le));
    forall i | 0 <= i < |sorted| ensures ListsJson(sorted[i]) {
      assert sorted[i] in multiset(Normalizations(definitions, s));
    }
  }

  lemma RegistryOfSucceeds(sorted: seq<Keyed<Definition>>, h: Hashing)
    requires TotalOrder(h.le) && forall i | 0 <= i < |ValuesOf(sorted)| :: ListsJson(ValuesOf(sorted)[i])
    requires AdjacentDuplicate(KeysOf(sorted), 1).None?
    ensures RegistryOf(sorted, h).Ok?
    ensures DefinitionsOf(RegistryOf(sorted, h).value.modules) == ValuesOf(sorted)
  {
    var definitions := ValuesOf(sorted);
    EntriesExist(definitions, h);
    var modules := Entries(definitions, h).value;
    SummariesAreJson(modules);
    DefinitionHashSeesContent(Summaries(modules), Summaries(modules), h);
    hide Entries, Summaries;
    assert DefinitionsOf(modules) == definitions;
  }

  function DefinitionsOf(modules: seq<Entry>): seq<Definition> {
    seq(|modules|, i requires 0 <= i < |modules| => modules[i].definition)
  }

  /**
    Creating a registry of JSON definitions fails exactly when two of them share a module code; otherwise
    the registry lists each of them, normalized, once.
   */
  lemma ThrowsIffSharedCode(definitions: seq<Definition>, s: Settings)
    requires TotalOrder(s.hashing.le) && AllJson(definitions, s)
    ensures var created := CreateBusinessModuleRegistry(definitions, s);
            && (created.Err? <==> SharedCode(definitions))
            && (created.Err? ==> created.error.DuplicateCode?)
            && (created.Ok?
                ==> multiset(DefinitionsOf(created.value.modules)) == multiset(Normalizations(definitions, s)))
  {
    AdjacentCheckComplete(definitions, s);
    SortedEntriesExist(definitions, s);
    hide Sort, TotalOrder, SharedCode, AllJson, ListsJson, DefinitionsOf, Entries, ByCode, Normalizations;
    var sorted := Sort(ByCode(definitions, s), s.hashing.le);
    if !SharedCode(definitions) { RegistryOfSucceeds(sorted, s.hashing); }
  }

  // ----- What a registry holds

  /** Normalizing keeps the contributions of each list, in the order of their identities, and everything else. */
  lemma NormalizedContributions(d: Definition, s: Settings, i: nat)
    requires TotalOrder(s.hashing.le) && i < |d.contributions|
    ensures var after := NormalizeContributionOrder(d, s);
            && after.moduleCode == d.moduleCode && after.header == d.header
            && |after.contributions| == |d.contributions|
            && var name, values := d.contributions[i].key, after.contributions[i].value;
               && after.contributions[i].key == name
               && multiset(values) == multiset(d.contributions[i].value)
               && forall j, k | 0 <= j < k < |values| ::
                    s.hashing.le(s.identity(name, values[j]), s.identity(name, values[k]))
  {
    var name, values := d.contributions[i].key, d.contributions[i].value;
    var xs := Identified(name, values, s);
    var sorted := Sort(xs, s.hashing.le);
    SortOrders(xs, s.hashing.le);
    ValuesMultiset(sorted, xs);
    assert ValuesOf(xs) == values;
    forall j | 0 <= j < |sorted| ensures sorted[j].key == s.identity(name, sorted[j].value) {
      assert sorted[j] in multiset(sorted);
      assert sorted[j] in xs;
    }
    hide Sort, TotalOrder;
  }

  /** A definition is hashed as a document of its code, its other members and its contribution lists. */
  lemma DocumentOf(d: Definition)
    ensures var v := ToJson(d);
            && v.Obj? && |v.members| == |d.header| + 2
            && v.members[0] == Keyed("moduleCode", Str(d.moduleCode))
            && (forall i | 0 <= i < |d.header| :: v.members[i + 1] == d.header[i])
            && var last := v.members[|d.header| + 1];
               && last.key == "contributions" && last.value.Obj? && |last.value.members| == |d.contributions|
               && forall i | 0 <= i < |d.contributions| ::
                    last.value.members[i] == Keyed(d.contributions[i].key, Arr(d.contributions[i].value))
  {
  }

  /**
    A registry lists its modules by code, each with the digests of its document with and without the
    presentation, and its own hash is the digest of these three for every module in turn.
   */
  lemma RegistryContents(definitions: seq<Definition>, s: Settings)
    requires TotalOrder(s.hashing.le) && CreateBusinessModuleRegistry(definitions, s).Ok?
    ensures var registry, le := CreateBusinessModuleRegistry(definitions, s).value, s.hashing.le;
            && (forall i, j | 0 <= i < j < |registry.modules| ::
                  le(registry.modules[i].definition.moduleCode, registry.modules[j].definition.moduleCode))
            && (forall i | 0 <= i < |registry.modules| ::
                  var entry, document := registry.modules[i], ToJson(registry.modules[i].definition);
                  && CanonicalText(document, le).Some? && CanonicalText(Project(document, PRESENTATION_KEYS), le).Some?
                  && entry.definitionHash == s.hashing.digest(CanonicalText(document, le).value)
                  && entry.activationHash
                       == s.hashing.digest(CanonicalText(Project(document, PRESENTATION_KEYS), le).value))
            && Summaries(registry.modules).Arr? && |Summaries(registry.modules).items| == |registry.modules|
            && (forall i | 0 <= i < |registry.modules| ::
                  Summaries(registry.modules).items[i]
                  == Obj([Keyed("moduleCode", Str(registry.modules[i].definition.moduleCode)),
                          Keyed("definitionHash", Str(registry.modules[i].definitionHash)),
                          Keyed("activationHash", Str(registry.modules[i].activationHash))]))
            && CanonicalText(Summaries(registry.modules), le).Some?
            && registry.registryHash == s.hashing.digest(CanonicalText(Summaries(registry.modules), le).value)
  {
    var le, xs := s.hashing.le, ByCode(definitions, s);
    var sorted := Sort(xs, le);
    SortOrders(xs, le);
    EntriesHold(ValuesOf(sorted), s.hashing);
    forall i | 0 <= i < |sorted| ensures sorted[i].key == sorted[i].value.moduleCode {
      assert sorted[i] in multiset(sorted);
      assert sorted[i] in xs;
    }
    hide Sort, TotalOrder, ToJson, CanonicalText, Project;
  }

  lemma {:induction false} EntriesHold(definitions: seq<Definition>, h: Hashing)
    requires Entries(definitions, h).Some?
    ensures var modules := Entries(definitions, h).value;
            && |modules| == |definitions|
            && forall i | 0 <= i < |modules| ::
                 var document := ToJson(definitions[i]);
                 && modules[i].definition == definitions[i]
                 && CanonicalText(document, h.le).Some?
                      && CanonicalText(Project(document, PRESENTATION_KEYS), h.le).Some?
                 && modules[i].definitionHash == h.digest(CanonicalText(document, h.le).value)
                 && modules[i].activationHash
                      == h.digest(CanonicalText(Project(document, PRESENTATION_KEYS), h.le).value)
    decreases |definitions|
  {
    hide ToJson, CanonicalText, Project;
    if definitions != [] { EntriesHold(definitions[1..], h); }
  }

  /** The code an error names is one that two definitions share. */
  lemma ReportedCodeIsShared(definitions: seq<Definition>, s: Settings)
    requires TotalOrder(s.hashing.le)
    ensures match CreateBusinessModuleRegistry(definitions, s)
            case Err(DuplicateCode(code)) =>
              exists i, j | 0 <= i < j < |definitions| :: definitions[i].moduleCode == code == definitions[j].moduleCode
            case _ => true
  {
    var le, xs := s.hashing.le, ByCode(definitions, s);
    var sorted := Sort(xs, le);
    SortOrders(xs, le);
    KeysMultiset(sorted, xs);
    var keys, codes := KeysOf(sorted), KeysOf(xs);
    assert |codes| == |definitions| && forall j | 0 <= j < |codes| :: codes[j] == definitions[j].moduleCode;
    hide Sort, TotalOrder, KeysOf, ByCode, Entries, Sha256, Summaries;
    if AdjacentDuplicate(keys, 1).Some? { DuplicateIsShared(keys, codes); }
  }

  lemma DuplicateIsShared(keys: seq<string>, codes: seq<string>)
    requires multiset(keys) == multiset(codes) && AdjacentDuplicate(keys, 1).Some?
    ensures var code := AdjacentDuplicate(keys, 1).value;
            exists i, j | 0 <= i < j < |codes| :: codes[i] == code == codes[j]
  {
    var code := AdjacentDuplicate(keys, 1).value;
    var i :| 1 <= i < |keys| && keys[i] == keys[i - 1] == code;
    CountedTwice(keys, i - 1, i);
    TwiceCounted(codes, code);
  }

  lemma CountedTwice(keys: seq<string>, i: nat, j: nat)
    requires i < j < |keys| && keys[i] == keys[j]
    ensures multiset(keys)[keys[i]] >= 2
  {
    assert keys == keys[..j] + keys[j..];
    assert keys[..j][i] in multiset(keys[..j]) && keys[j..][0] in multiset(keys[j..]);
  }

  lemma {:induction false} TwiceCounted(keys: seq<string>, key: string)
    requires multiset(keys)[key] >= 2
    ensures exists i, j | 0 <= i < j < |keys| :: keys[i] == key == keys[j]
    decreases |keys|
  {
    var rest := keys[1..];
    assert keys == [keys[0]] + rest;
    if keys[0] == key {
      assert key in multiset(rest);
      var j :| 0 <= j < |rest| && rest[j] == key;
      assert keys[0] == key == keys[j + 1];
    } else {
      TwiceCounted(rest, key);
      var i, j :| 0 <= i < j < |rest| && rest[i] == key == rest[j];
      assert keys[i + 1] == key == keys[j + 1];
    }
  }

  // ----- Determinism

  lemma {:induction false} ByCodePermutes(a: seq<Definition>, b: seq<Definition>, s: Settings)
    requires multiset(a) == multiset(b)
    ensures multiset(ByCode(a, s)) == multiset(ByCode(b, s))
    decreases |a|
  {
    assert |a| == |multiset(a)| && |b| == |multiset(b)|;
    if a == [] {
      assert ByCode(a, s) == ByCode(b, s);
    } else {
      assert a[0] in multiset(b);
      var i :| 0 <= i < |b| && b[i] == a[0];
      RemovesOne(a, 0);
      RemovesOne(b, i);
      ByCodeRemoves(a, 0, s);
      ByCodeRemoves(b, i, s);
      hide RemoveAt, ByCode;
      ByCodePermutes(RemoveAt(a, 0), RemoveAt(b, i), s);
    }
  }

  lemma ByCodeRemoves(definitions: seq<Definition>, i: nat, s: Settings)
    requires i < |definitions|
    ensures multiset(ByCode(definitions, s)) == multiset(ByCode(RemoveAt(definitions, i), s))
              + multiset{Keyed(definitions[i].moduleCode, NormalizeContributionOrder(definitions[i], s))}
  {
    var xs := ByCode(definitions, s);
    hide NormalizeContributionOrder;
    RemovesOne(xs, i);
    assert RemoveAt(xs, i) == ByCode(RemoveAt(definitions, i), s);
  }

  /** The registry, or the error, does not depend on the order in which definitions are given. */
  lemma RegistryIgnoresOrder(a: seq<Definition>, b: seq<Definition>, s: Settings)
    requires TotalOrder(s.hashing.le) && multiset(a) == multiset(b)
    ensures CreateBusinessModuleRegistry(a, s) == CreateBusinessModuleRegistry(b, s)
  {
    var le, x, y := s.hashing.le, ByCode(a, s), ByCode(b, s);
    ByCodePermutes(a, b, s);
    SortedKeysAgree(x, y, le);
    hide Sort, TotalOrder, ByCode, Entries, AdjacentDuplicate;
    if AdjacentDuplicate(KeysOf(Sort(x, le)), 1).None? {
      AdjacentCheckComplete(a, s);
      NoSharedCodeIsDistinct(a, s);
      SortIgnoresOrder(x, y, le);
    }
  }

  lemma NoSharedCodeIsDistinct(definitions: seq<Definition>, s: Settings)
    requires !SharedCode(definitions)
    ensures DistinctKeys(ByCode(definitions, s))
  {
  }

  /** The same definition but for the order of its contributions, which have distinct identities in each list. */
  ghost predicate ContributionsPermuted(a: Definition, b: Definition, s: Settings) {
    && a.moduleCode == b.moduleCode && a.header == b.header
    && |a.contributions| == |b.contributions|
    && forall i | 0 <= i < |a.contributions| ::
         && a.contributions[i].key == b.contributions[i].key
         && multiset(a.contributions[i].value) == multiset(b.contributions[i].value)
         && DistinctKeys(Identified(a.contributions[i].key, a.contributions[i].value, s))
  }

  lemma {:induction false} IdentifiedPermutes(name: string, a: seq<Json>, b: seq<Json>, s: Settings)
    requires multiset(a) == multiset(b)
    ensures multiset(Identified(name, a, s)) == multiset(Identified(name, b, s))
    decreases |a|
  {
    assert |a| == |multiset(a)| && |b| == |multiset(b)|;
    if a == [] {
      assert Identified(name, a, s) == Identified(name, b, s);
    } else {
      assert a[0] in multiset(b);
      var i :| 0 <= i < |b| && b[i] == a[0];
      RemovesOne(a, 0);
      RemovesOne(b, i);
      IdentifiedRemoves(name, a, 0, s);
      IdentifiedRemoves(name, b, i, s);
      hide RemoveAt, Identified;
      IdentifiedPermutes(name, RemoveAt(a, 0), RemoveAt(b, i), s);
    }
  }

  lemma IdentifiedRemoves(name: string, values: seq<Json>, i: nat, s: Settings)
    requires i < |values|
    ensures multiset(Identified(name, values, s)) == multiset(Identified(name, RemoveAt(values, i), s))
              + multiset{Keyed(s.identity(name, values[i]), values[i])}
  {
    RemovesOne(Identified(name, values, s), i);
    assert RemoveAt(Identified(name, values, s), i) == Identified(name, RemoveAt(values, i), s);
  }

  /** A definition normalizes to the same whatever the order of its contributions. */
  lemma NormalizationIgnoresOrder(a: Definition, b: Definition, s: Settings)
    requires TotalOrder(s.hashing.le) && ContributionsPermuted(a, b, s)
    ensures NormalizeContributionOrder(a, s) == NormalizeContributionOrder(b, s)
  {
    hide Sort, TotalOrder;
    forall i | 0 <= i < |a.contributions|
      ensures NormalizeContributionOrder(a, s).contributions[i] == NormalizeContributionOrder(b, s).contributions[i]
    {
      IdentifiedPermutes(a.contributions[i].key, a.contributions[i].value, b.contributions[i].value, s);
      SortIgnoresOrder(Identified(a.contributions[i].key, a.contributions[i].value, s),
                       Identified(b.contributions[i].key, b.contributions[i].value, s), s.hashing.le);
    }
  }

  /** Nor on the order of their contributions. */
  lemma RegistryIgnoresContributionOrder(a: seq<Definition>, b: seq<Definition>, s: Settings)
    requires TotalOrder(s.hashing.le) && |a| == |b| && forall i | 0 <= i < |a| :: ContributionsPermuted(a[i], b[i], s)
    ensures CreateBusinessModuleRegistry(a, s) == CreateBusinessModuleRegistry(b, s)
  {
    forall i | 0 <= i < |a| ensures ByCode(a, s)[i] == ByCode(b, s)[i] { NormalizationIgnoresOrder(a[i], b[i], s); }
    assert ByCode(a, s) == ByCode(b, s);
  }
}
