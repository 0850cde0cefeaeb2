/** `TypeHelperService.TypeHasProperties<T>`: checks that every field named in a comma-separated
    list is a public property of `T`. Reflection over `T` is replaced by the list of `T`'s
    declared public property names. */
module TypeHelperService {
  import opened Wrappers
  import opened Text

  /** The public properties of `AuthorDto`. */
  const AuthorDtoProperties: seq<string> := ["Id", "Name", "Age", "Genre"]

  /** `typeof(T).GetProperty(name, IgnoreCase | Public | Instance) != null`. */
  predicate HasProperty(properties: seq<string>, name: string) {
    exists i | 0 <= i < |properties| :: EqualsIgnoreCase(properties[i], name)
  }

  /** The `foreach` over the split fields: false at the first token, once trimmed, that names
      no property. */
  function AllAreProperties(properties: seq<string>, tokens: seq<string>): (r: bool)
    ensures r <==> forall i | 0 <= i < |tokens| :: HasProperty(properties, Trim(tokens[i]))
  {
    if tokens == [] then true
    else if !HasProperty(properties, Trim(tokens[0])) then false
    else
      var rest := AllAreProperties(properties, tokens[1..]);
      assert forall i | 1 <= i < |tokens| :: tokens[i] == tokens[1..][i - 1];
      rest
  }

  /** True when `fields` is null or blank, otherwise exactly when every comma-separated field,
      trimmed, names a property (ignoring case). */
  function TypeHasProperties(properties: seq<string>, fields: Option<string>): (r: bool)
    ensures IsNullOrWhiteSpace(fields) ==> r
    ensures !IsNullOrWhiteSpace(fields) ==>
      (r <==> forall t | t in Split(fields.value, ',') :: HasProperty(properties, Trim(t)))
  {
    if IsNullOrWhiteSpace(fields) then true
    else AllAreProperties(properties, Split(fields.value, ','))
  }

  /** The requested fields when the client sends them as the list `parts`. */
  function Fields(parts: seq<string>): string {
    Join(parts, ',')
  }

  predicate CommaFree(parts: seq<string>) {
    forall i | 0 <= i < |parts| :: ',' !in parts[i]
  }

  lemma {:induction false} JoinNotAllWhiteSpace(parts: seq<string>, sep: char, i: nat)
    requires i < |parts| && !AllWhiteSpace(parts[i])
    ensures !AllWhiteSpace(Join(parts, sep))
    decreases |parts|
  {
    if i == 0 {
      var k :| 0 <= k < |parts[0]| && !IsWhiteSpace(parts[0][k]);
      if |parts| > 1 {
        assert Join(parts, sep)[k] == parts[0][k];
      }
    } else {
      JoinNotAllWhiteSpace(parts[1..], sep, i - 1);
      var rest := Join(parts[1..], sep);
      var k :| 0 <= k < |rest| && !IsWhiteSpace(rest[k]);
      assert Join(parts, sep)[|parts[0]| + 1 + k] == rest[k];
    }
  }

  /** The fields the client listed are exactly the tokens the check visits. */
  lemma FieldsTokens(parts: seq<string>)
    requires |parts| >= 1 && CommaFree(parts)
    requires exists i | 0 <= i < |parts| :: !AllWhiteSpace(parts[i])
    ensures !IsNullOrWhiteSpace(Some(Fields(parts)))
    ensures Split(Fields(parts), ',') == parts
  {
    var i :| 0 <= i < |parts| && !AllWhiteSpace(parts[i]);
    JoinNotAllWhiteSpace(parts, ',', i);
    SplitJoin(parts, ',');
  }

  /** One field that names no property rejects the whole list, wherever it stands. */
  lemma UnknownFieldRejects(properties: seq<string>, before: seq<string>, field: string, after: seq<string>)
    requires CommaFree(before + [field] + after)
    requires !HasProperty(properties, Trim(field))
    requires !AllWhiteSpace(field)
    ensures !TypeHasProperties(properties, Some(Fields(before + [field] + after)))
  {
    var parts := before + [field] + after;
    assert parts[|before|] == field;
    FieldsTokens(parts);
  }

  /** Reordering or repeating the listed fields does not change the answer. */
  lemma OrderAndRepetitionIrrelevant(properties: seq<string>, a: seq<string>, b: seq<string>)
    requires |a| >= 1 && |b| >= 1 && CommaFree(a) && CommaFree(b)
    requires forall t :: t in a <==> t in b
    requires exists i | 0 <= i < |a| :: !AllWhiteSpace(a[i])
    ensures TypeHasProperties(properties, Some(Fields(a))) == TypeHasProperties(properties, Some(Fields(b)))
  {
    var i :| 0 <= i < |a| && !AllWhiteSpace(a[i]);
    assert a[i] in b;
    var j :| 0 <= j < |b| && b[j] == a[i];
    FieldsTokens(a);
    FieldsTokens(b);
  }

  /** White space around each field is ignored. */
  lemma PaddingIrrelevant(properties: seq<string>, parts: seq<string>, w1: string, w2: string)
    requires |parts| >= 1 && CommaFree(parts)
    requires exists i | 0 <= i < |parts| :: !AllWhiteSpace(parts[i])
    requires AllWhiteSpace(w1) && AllWhiteSpace(w2) && ',' !in w1 && ',' !in w2
    ensures var padded := seq(|parts|, i requires 0 <= i < |parts| => w1 + parts[i] + w2);
      TypeHasProperties(properties, Some(Fields(padded))) == TypeHasProperties(properties, Some(Fields(parts)))
  {
    var padded := seq(|parts|, i requires 0 <= i < |parts| => w1 + parts[i] + w2);
    var i :| 0 <= i < |parts| && !AllWhiteSpace(parts[i]);
    assert !AllWhiteSpace(padded[i]) by {
      var k :| 0 <= k < |parts[i]| && !IsWhiteSpace(parts[i][k]);
      assert padded[i][|w1| + k] == parts[i][k];
    }
    assert CommaFree(padded) by {
      forall j | 0 <= j < |padded| ensures ',' !in padded[j] {
        assert padded[j] == w1 + parts[j] + w2;
      }
    }
    forall j | 0 <= j < |parts| ensures Trim(padded[j]) == Trim(parts[j]) {
      TrimPadded(w1, parts[j], w2);
    }
    assert TypeHasProperties(properties, Some(Fields(parts))) == AllAreProperties(properties, parts) by {
      FieldsTokens(parts);
    }
    assert TypeHasProperties(properties, Some(Fields(padded))) == AllAreProperties(properties, padded) by {
      FieldsTokens(padded);
    }
  }

  lemma AuthorDtoNames()
    ensures Fold("Id") == "ID" && Fold("Name") == "NAME" && Fold("Age") == "AGE" && Fold("Genre") == "GENRE"
  {
  }

  /** For `AuthorDto` a single field is accepted exactly when it is Id, Name, Age or Genre in
      some casing. */
  lemma AuthorDtoSingleField(field: string)
    requires ',' !in field && !AllWhiteSpace(field)
    ensures TypeHasProperties(AuthorDtoProperties, Some(field))
        <==> Fold(Trim(field)) in {"ID", "NAME", "AGE", "GENRE"}
  {
    SplitWithoutSeparator(field, ',');
    AuthorDtoNames();
    var name := Trim(field);
    if Fold(name) in {"ID", "NAME", "AGE", "GENRE"} {
      var i := if Fold(name) == "ID" then 0 else if Fold(name) == "NAME" then 1
               else if Fold(name) == "AGE" then 2 else 3;
      assert EqualsIgnoreCase(AuthorDtoProperties[i], name);
    }
  }
}
