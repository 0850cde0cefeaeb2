/** The sort-field mapping table (DTO property -> entity properties) and the check that an
    `orderBy` string only names mapped properties. */
module PropertyMappingService {
  import opened Wrappers
  import opened Text
  import opened Sequences
  import TypeHelperService

  /** The entity properties a DTO property sorts by, and whether its direction is reversed
      (a larger age is an earlier date of birth). */
  datatype PropertyMappingValue = PropertyMappingValue(destinationProperties: seq<string>, revert: bool)

  datatype MappingEntry = MappingEntry(key: string, value: PropertyMappingValue)

  /** A `Dictionary<string, PropertyMappingValue>` built with `StringComparer.OrdinalIgnoreCase`:
      its entries in insertion order. */
  type MappingDictionary = seq<MappingEntry>

  predicate ContainsKey(d: MappingDictionary, key: string) {
    exists i | 0 <= i < |d| :: EqualsIgnoreCase(d[i].key, key)
  }

  /** No two keys differ only in case, which `Dictionary.Add` enforces. */
  predicate UniqueKeys(d: MappingDictionary) {
    forall i, j | 0 <= i < j < |d| :: !EqualsIgnoreCase(d[i].key, d[j].key)
  }

  /** The dictionary indexer: the value stored under `key`, ignoring case. */
  function Lookup(d: MappingDictionary, key: string): (r: Option<PropertyMappingValue>)
    ensures r.None? <==> !ContainsKey(d, key)
    ensures r.Some? ==> exists i | 0 <= i < |d| :: EqualsIgnoreCase(d[i].key, key) && d[i].value == r.value
  {
    match FirstWhere(d, (e: MappingEntry) => EqualsIgnoreCase(e.key, key))
    case None => None
    case Some(e) => Some(e.value)
  }

  /** Under unique keys, the value found is the one stored under the matching key. */
  lemma LookupUnique(d: MappingDictionary, i: nat, key: string)
    requires UniqueKeys(d) && i < |d| && EqualsIgnoreCase(d[i].key, key)
    ensures Lookup(d, key) == Some(d[i].value)
  {
  }

  /** The name of a .NET type, as `typeof(T)` prints it. */
  datatype TypeName = TypeName(fullName: string)

  const AuthorDtoType: TypeName := TypeName("Library.API.Models.AuthorDto")
  const AuthorType: TypeName := TypeName("Library.API.Entities.Author")

  /** `PropertyMapping<TSource, TDestination>`: a mapping dictionary tagged with its two types. */
  datatype PropertyMapping = PropertyMapping(source: TypeName, destination: TypeName, mappingDictionary: MappingDictionary)

  /** The exception `GetPropertyMapping` throws. */
  datatype MappingError = ExactMappingNotFound(source: TypeName, destination: TypeName)

  /** The author table: Id, Genre, Age and Name, in that order. */
  const AuthorPropertyMapping: MappingDictionary := [
    MappingEntry("Id", PropertyMappingValue(["Id"], false)),
    MappingEntry("Genre", PropertyMappingValue(["Genre"], false)),
    MappingEntry("Age", PropertyMappingValue(["DateOfBirth"], true)),
    MappingEntry("Name", PropertyMappingValue(["FirstName", "LastName"], false))
  ]

  /** Matches `OfType<PropertyMapping<AuthorDto, Author>>()`. */
  predicate IsAuthorMapping(m: PropertyMapping) {
    m.source == AuthorDtoType && m.destination == AuthorType
  }

  /** The key an `orderBy` or field clause is looked up by: trimmed, then cut at the first
      space, so "name desc" is looked up as "name". */
  function PropertyKey(clause: string): (r: string)
    ensures ' ' !in r && |r| <= |Trim(clause)|
  {
    BeforeFirstSpace(Trim(clause))
  }

  /** Every clause's key is in the dictionary. */
  predicate AllKeysMapped(d: MappingDictionary, clauses: seq<string>) {
    forall i | 0 <= i < |clauses| :: ContainsKey(d, PropertyKey(clauses[i]))
  }

  /** The author table has exactly the keys Id, Genre, Age and Name, in any casing, and no key
      twice. */
  lemma AuthorKeys(key: string)
    ensures ContainsKey(AuthorPropertyMapping, key) <==> Fold(key) in {"ID", "GENRE", "AGE", "NAME"}
    ensures UniqueKeys(AuthorPropertyMapping)
  {
    TypeHelperService.AuthorDtoNames();
    var d := AuthorPropertyMapping;
    if Fold(key) in {"ID", "GENRE", "AGE", "NAME"} {
      var i := if Fold(key) == "ID" then 0 else if Fold(key) == "GENRE" then 1
               else if Fold(key) == "AGE" then 2 else 3;
      assert EqualsIgnoreCase(d[i].key, key);
    }
  }

  /** What each author key maps to: Age reverses to DateOfBirth, Name sorts by FirstName then
      LastName, Id and Genre map to themselves. */
  lemma AuthorLookups(key: string)
    ensures Fold(key) == "ID" ==> Lookup(AuthorPropertyMapping, key) == Some(PropertyMappingValue(["Id"], false))
    ensures Fold(key) == "GENRE" ==> Lookup(AuthorPropertyMapping, key) == Some(PropertyMappingValue(["Genre"], false))
    ensures Fold(key) == "AGE" ==> Lookup(AuthorPropertyMapping, key) == Some(PropertyMappingValue(["DateOfBirth"], true))
    ensures Fold(key) == "NAME" ==>
      Lookup(AuthorPropertyMapping, key) == Some(PropertyMappingValue(["FirstName", "LastName"], false))
  {
    AuthorKeys(key);
    var d := AuthorPropertyMapping;
    if Fold(key) in {"ID", "GENRE", "AGE", "NAME"} {
      var i := if Fold(key) == "ID" then 0 else if Fold(key) == "GENRE" then 1
               else if Fold(key) == "AGE" then 2 else 3;
      assert EqualsIgnoreCase(d[i].key, key);
      LookupUnique(d, i, key);
    }
  }

  class PropertyMappingService {
    var propertyMappings: seq<PropertyMapping>

    /** Registers the single AuthorDto -> Author mapping. */
    constructor()
      ensures propertyMappings == [PropertyMapping(AuthorDtoType, AuthorType, AuthorPropertyMapping)]
    {
      propertyMappings := [];
      propertyMappings := propertyMappings + [PropertyMapping(AuthorDtoType, AuthorType, AuthorPropertyMapping)];
    }

    /** The dictionary of the one registered AuthorDto -> Author mapping, whatever the type
        arguments; an error naming the type arguments unless exactly one is registered. */
    function GetPropertyMapping(source: TypeName, destination: TypeName): (r: Result<MappingDictionary, MappingError>)
      reads this
      ensures r.Success? <==> ExactlyOne(propertyMappings, IsAuthorMapping)
      ensures r.Success? ==> PropertyMapping(AuthorDtoType, AuthorType, r.value) in propertyMappings
      ensures r.Failure? ==> r.error == ExactMappingNotFound(source, destination)
    {
      var matching := Filter(propertyMappings, IsAuthorMapping);
      FilterExactlyOne(propertyMappings, IsAuthorMapping);
      if |matching| == 1 then
        assert matching[0] in multiset(matching);
        Success(matching[0].mappingDictionary)
      else
        Failure(ExactMappingNotFound(source, destination))
    }

    /** Looks the mapping up first (so a missing mapping fails even for blank `fields`), then
        accepts blank `fields`, and otherwise accepts exactly when every clause's key is mapped. */
    method ValidMappingExistsFor(source: TypeName, destination: TypeName, fields: Option<string>)
      returns (r: Result<bool, MappingError>)
      ensures GetPropertyMapping(source, destination).Failure? ==> r == Failure(GetPropertyMapping(source, destination).error)
      ensures GetPropertyMapping(source, destination).Success? ==> r.Success? && (r.value <==>
        IsNullOrWhiteSpace(fields)
        || AllKeysMapped(GetPropertyMapping(source, destination).value, Split(fields.value, ',')))
    {
      var mapping := GetPropertyMapping(source, destination);
      if mapping.Failure? {
        return Failure(mapping.error);
      }
      var propertyMapping := mapping.value;
      if IsNullOrWhiteSpace(fields) {
        return Success(true);
      }
      var fieldsAfterSplit := Split(fields.value, ',');
      var i := 0;
      while i < |fieldsAfterSplit|
        invariant 0 <= i <= |fieldsAfterSplit|
        invariant AllKeysMapped(propertyMapping, fieldsAfterSplit[..i])
      {
        var propertyName := PropertyKey(fieldsAfterSplit[i]);
        if !ContainsKey(propertyMapping, propertyName) {
          return Success(false);
        }
        assert fieldsAfterSplit[..i + 1] == fieldsAfterSplit[..i] + [fieldsAfterSplit[i]];
        i := i + 1;
      }
      assert fieldsAfterSplit[..i] == fieldsAfterSplit;
      return Success(true);
    }
  }

  /** A freshly constructed service resolves any pair of type arguments to the author table. */
  lemma ConstructedServiceResolves(s: PropertyMappingService, source: TypeName, destination: TypeName)
    requires s.propertyMappings == [PropertyMapping(AuthorDtoType, AuthorType, AuthorPropertyMapping)]
    ensures s.GetPropertyMapping(source, destination) == Success(AuthorPropertyMapping)
  {
    assert IsAuthorMapping(s.propertyMappings[0]);
  }

  /** Registering the author mapping twice makes every lookup fail. */
  lemma DuplicateRegistrationFails(s: PropertyMappingService, m: PropertyMapping, source: TypeName, destination: TypeName)
    requires |s.propertyMappings| == 2 && s.propertyMappings[0] == m && s.propertyMappings[1] == m
    requires IsAuthorMapping(m)
    ensures s.GetPropertyMapping(source, destination) == Failure(ExactMappingNotFound(source, destination))
  {
    assert IsAuthorMapping(s.propertyMappings[1]);
  }

  lemma FoldExamples()
    ensures Fold("name") == "NAME" && Fold("Age") == "AGE" && Fold("NAME") == "NAME" && Fold("books") == "BOOKS"
  {
  }

  /** A clause made of padding, a key without spaces and a space-led tail has that key. */
  lemma PropertyKeyOf(w: string, key: string, tail: string)
    requires AllWhiteSpace(w) && ' ' !in key && (tail == [] || tail[0] == ' ')
    requires key + tail != [] && !IsWhiteSpace((key + tail)[0]) && !IsWhiteSpace((key + tail)[|key + tail| - 1])
    ensures PropertyKey(w + key + tail) == key
  {
    var t := key + tail;
    assert Trim(w + key + tail) == t by {
      assert AllWhiteSpace([]);
      assert w + key + tail == w + t + [];
      TrimPadded(w, t, []);
      TrimUnpadded(t);
    }
    assert BeforeFirstSpace(t) == key by {
      assert t[..|key|] == key;
      BeforeFirstSpaceAt(t, |key|);
    }
  }

  lemma NameDescMapped()
    ensures ContainsKey(AuthorPropertyMapping, PropertyKey("name desc"))
  {
    PropertyKeyOf("", "name", " desc");
    assert "" + "name" + " desc" == "name desc";
    FoldExamples();
    assert EqualsIgnoreCase(AuthorPropertyMapping[3].key, "name");
  }

  lemma AgeAscMapped()
    ensures ContainsKey(AuthorPropertyMapping, PropertyKey(" Age asc"))
  {
    PropertyKeyOf(" ", "Age", " asc");
    assert " " + "Age" + " asc" == " Age asc";
    assert EqualsIgnoreCase(AuthorPropertyMapping[2].key, "Age");
  }

  lemma UpperNameMapped()
    ensures ContainsKey(AuthorPropertyMapping, PropertyKey("NAME"))
  {
    PropertyKeyOf("", "NAME", "");
    assert "" + "NAME" + "" == "NAME";
    FoldExamples();
    TypeHelperService.AuthorDtoNames();
    assert EqualsIgnoreCase(AuthorPropertyMapping[3].key, "NAME");
  }

  /** Sort clauses validate by their key alone: "name desc", " Age asc" and "NAME" are
      accepted. */
  lemma AuthorClausesAccepted(clauses: seq<string>)
    requires clauses == ["name desc", " Age asc", "NAME"]
    ensures AllKeysMapped(AuthorPropertyMapping, clauses)
  {
    forall i | 0 <= i < |clauses| ensures ContainsKey(AuthorPropertyMapping, PropertyKey(clauses[i])) {
      if i == 0 {
        NameDescMapped();
      } else if i == 1 {
        AgeAscMapped();
      } else {
        UpperNameMapped();
      }
    }
  }

  /** A clause naming no author property, such as "books", is rejected. */
  lemma AuthorClauseRejected(clauses: seq<string>)
    requires clauses == ["name", "books"]
    ensures !AllKeysMapped(AuthorPropertyMapping, clauses)
  {
    PropertyKeyOf("", "books", "");
    assert "" + "books" + "" == "books";
    FoldExamples();
    AuthorKeys("books");
    assert PropertyKey(clauses[1]) == "books";
  }
}
