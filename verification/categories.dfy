/** The comma-separated category field of the game upload and game edit forms.

    On upload every item of the field must name an existing category, exactly as written; one
    unknown item rejects the upload before the game is created. On edit each item is stripped of
    surrounding whitespace, empty items are dropped, and unknown names are created on the fly. */
module Categories {
  import opened Wrappers
  import opened Seqs
  import opened Text

  /** The upload form's text fields by name; a file field counts as present when it is listed. */
  type Form = map<string, string>

  /** A required field that is absent or empty (Python's falsy `request.data.get(field)`). */
  predicate Missing(form: Form, field: string) {
    field !in form || form[field] == ""
  }

  /** `Missing` as a test on field names. */
  function MissingIn(form: Form): string -> bool {
    (f: string) => Missing(form, f)
  }

  /** The upload form's required fields, in the order the error message lists them. */
  const RequiredFields: seq<string> := ["title", "category", "content", "gamefile"]

  /** The required fields the form lacks, in the order of `RequiredFields`, each once. */
  function MissingOf(form: Form): (m: seq<string>)
    ensures forall f :: f in m <==> f in RequiredFields && Missing(form, f)
    ensures Subsequence(m, RequiredFields) && Distinct(m)
    ensures |m| <= |RequiredFields|
    ensures m == [] ==> !Missing(form, "category")
  {
    assert Distinct(RequiredFields);
    FilterDistinct(RequiredFields, MissingIn(form));
    Filter(RequiredFields, MissingIn(form))
  }

  datatype UploadError =
    | MissingFields(fields: seq<string>)          // 400 naming every missing required field
    | UnknownCategories(names: seq<string>)       // 400 naming every item that is not a category

  /** Sorts the items into existing category names and the rest, each in the order given. */
  method PartitionCategories(items: seq<string>, known: set<string>)
    returns (valid: seq<string>, invalid: seq<string>)
    ensures valid == Filter(items, (x: string) => x in known)
    ensures invalid == Filter(items, (x: string) => x !in known)
    ensures multiset(valid) + multiset(invalid) == multiset(items)
  {
    valid, invalid := [], [];
    var i := |items|;
    while i > 0
      invariant 0 <= i <= |items|
      invariant valid == Filter(items[i..], (x: string) => x in known)
      invariant invalid == Filter(items[i..], (x: string) => x !in known)
    {
      i := i - 1;
      assert items[i..][1..] == items[i + 1..];
      if items[i] in known {
        valid := [items[i]] + valid;
      } else {
        invalid := [items[i]] + invalid;
      }
    }
    assert items[0..] == items;
    FilterSplit(items, (x: string) => x in known, (x: string) => x !in known);
  }

  /** The category part of an upload: the categories the new game gets, or why the upload is
      rejected. */
  method UploadCategories(form: Form, known: set<string>) returns (r: Result<seq<string>, UploadError>)
    ensures var missing := MissingOf(form);
            missing != [] ==> r == Failure(MissingFields(missing))
    ensures r.Success? ==> "category" in form && form["category"] != ""
    ensures r.Success? <==>
            && MissingOf(form) == []
            && forall item :: item in Split(form["category"], ',') ==> item in known
    ensures r.Success? ==> r.value == Split(form["category"], ',')
    ensures r.Failure? && r.error.UnknownCategories? ==>
            r.error.names != [] && forall n :: n in r.error.names <==> n in Split(form["category"], ',') && n !in known
    ensures MissingOf(form) == [] && r.Failure? ==>
            r == Failure(UnknownCategories(Filter(Split(form["category"], ','), (x: string) => x !in known)))
  {
    var missing := MissingOf(form);
    if missing != [] {
      return Failure(MissingFields(missing));
    }
    var items := Split(form["category"], ',');
    var valid, invalid := PartitionCategories(items, known);
    if invalid != [] {
      assert invalid[0] in items && invalid[0] !in known by {
        assert invalid[0] in invalid;
      }
      return Failure(UnknownCategories(invalid));
    }
    assert forall item :: item in items && item !in known ==> item in invalid;
    FilterAll(items, (x: string) => x in known);
    return Success(valid);
  }

  /** Each part stripped. */
  function StripEach(parts: seq<string>): (r: seq<string>)
    ensures |r| == |parts| && forall k :: 0 <= k < |parts| ==> r[k] == Strip(parts[k])
  {
    seq(|parts|, k requires 0 <= k < |parts| => Strip(parts[k]))
  }

  /** The category names an edit asks for: every item, stripped, that is not empty. */
  function Requested(field: string): (names: seq<string>)
    ensures forall n :: n in names <==> n != "" && n in StripEach(Split(field, ','))
  {
    var stripped := StripEach(Split(field, ','));
    Filter(stripped, (n: string) => n != "")
  }

  /** The category part of a game edit. */
  datatype CategoryEdit = CategoryEdit(categories: set<string>, known: set<string>)

  /** An absent field keeps the game's categories; a present one replaces them with the requested
      names, creating the names that do not exist yet. */
  function EditCategories(current: set<string>, known: set<string>, field: Option<string>): (e: CategoryEdit)
    ensures field.None? ==> e == CategoryEdit(current, known)
    ensures field.Some? ==> forall n :: n in e.categories <==> n in Requested(field.value)
    ensures field.Some? ==> e.known == known + e.categories
    ensures field.Some? ==> forall n :: n in e.categories ==> n != "" && Strip(n) == n
  {
    match field
    case None => CategoryEdit(current, known)
    case Some(s) =>
      var names := set n | n in Requested(s);
      assert forall n :: n in names ==> Strip(n) == n by {
        forall n | n in names ensures Strip(n) == n {
          var parts := Split(s, ',');
          var k :| 0 <= k < |parts| && StripEach(parts)[k] == n;
          StripIdempotent(parts[k]);
        }
      }
      CategoryEdit(names, known + names)
  }

  /** Stripping twice strips no more than stripping once. */
  lemma StripIdempotent(s: string)
    ensures Strip(Strip(s)) == Strip(s)
  {
    var t := Strip(s);
    if t != "" {
      assert !IsSpace(t[0]) && !IsSpace(t[|t| - 1]);
      StripNothing(t);
    }
  }

  /** Text that neither starts nor ends with whitespace is its own strip. */
  lemma StripNothing(t: string)
    requires t != "" && !IsSpace(t[0]) && !IsSpace(t[|t| - 1])
    ensures Strip(t) == t
  {
    assert StripLeft(t) == t;
    assert StripRight(t) == t;
  }
}
