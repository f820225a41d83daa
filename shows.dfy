/** The `/api/shows` routes: the `validateShow` chain and the six handlers, each
    run against the store. The name multer gives an uploaded file is a
    parameter (`file`); None when the request carries no file. */
module Shows {
  import opened Wrappers
  import opened Decimal
  import opened Schema
  import opened Ordering
  import opened Database
  import opened Http

  /** The fields of the request body, as strings; None when a field is absent.
      Other JSON values (numbers, booleans) are not modelled. */
  datatype ShowForm = ShowForm(title: Option<string>, description: Option<string>, category: Option<string>)

  /** What the PUT handler echoes back: the id exactly as it appeared in the path. */
  datatype UpdatedShow = UpdatedShow(id: string, title: string, description: string, category: string, image: Option<string>)

  const TitleRequired := "Title is required"
  const DescriptionRequired := "Description is required"
  const CategoryInvalid := "Category must be movie, anime, or serie"
  const IdNotInteger := "ID must be an integer"
  const ShowNotFound := "Show not found"
  const ShowDeleted := "Show deleted successfully"

  /** notEmpty(): the field is present and not the empty string. */
  predicate NotEmpty(v: Option<string>) {
    v.Some? && v.value != ""
  }

  /** isIn(['movie', 'anime', 'serie']). */
  predicate InCategories(v: Option<string>) {
    v.Some? && IsCategory(v.value)
  }

  predicate WellFormed(f: ShowForm) {
    NotEmpty(f.title) && NotEmpty(f.description) && InCategories(f.category)
  }

  function TitleError(f: ShowForm): FieldError {
    FieldError(Body, "title", f.title, TitleRequired)
  }

  function DescriptionError(f: ShowForm): FieldError {
    FieldError(Body, "description", f.description, DescriptionRequired)
  }

  function CategoryError(f: ShowForm): FieldError {
    FieldError(Body, "category", f.category, CategoryInvalid)
  }

  function Check(ok: bool, e: FieldError): seq<FieldError> {
    if ok then [] else [e]
  }

  /** `validateShow` followed by `validationResult(req).array()`: one error per
      violated field, each with its message, in the order of the chain. */
  function Validate(f: ShowForm): (errors: seq<FieldError>)
    ensures errors == [] <==> WellFormed(f)
    ensures TitleError(f) in errors <==> !NotEmpty(f.title)
    ensures DescriptionError(f) in errors <==> !NotEmpty(f.description)
    ensures CategoryError(f) in errors <==> !InCategories(f.category)
    ensures forall e :: e in errors ==> e == TitleError(f) || e == DescriptionError(f) || e == CategoryError(f)
    ensures forall i, j :: 0 <= i < j < |errors| ==> Rank(errors[i].path) < Rank(errors[j].path)
  {
    Check(NotEmpty(f.title), TitleError(f))
    + Check(NotEmpty(f.description), DescriptionError(f))
    + Check(InCategories(f.category), CategoryError(f))
  }

  /** The position of a field in the validation chain. */
  function Rank(path: string): nat {
    if path == "title" then 0 else if path == "description" then 1 else 2
  }

  /** The error DELETE reports for a path id isInt() refuses. */
  function IdError(idText: string): FieldError {
    FieldError(Params, "id", Some(idText), IdNotInteger)
  }

  /** The stored path of an upload on POST (relative: no leading slash). */
  function CreatedImage(file: Option<string>): Option<string> {
    if file.Some? then Some("uploads/" + file.value) else None
  }

  /** The path of an upload on PUT (with a leading slash). */
  function UpdatedImage(file: Option<string>): Option<string> {
    if file.Some? then Some("/uploads/" + file.value) else None
  }

  /** Non-empty title and description: not a constraint of the schema, but every
      row the routes write has passed validation. */
  ghost predicate Validated(t: Table) {
    forall k :: k in t ==> t[k].title != "" && t[k].description != ""
  }

  /** GET /:id. */
  function GetShow(db: Store, idText: string): (r: Reply<Show>)
    reads db
    ensures r.Ok? || r == NotFound(ShowNotFound)
    ensures r.Ok? <==> exists k :: ParseInt(idText) == Some(k) && k in db.shows
    ensures r.Ok? ==> ParseInt(idText).Some? && r.body == db.shows[ParseInt(idText).value]
  {
    var row := if ParseInt(idText).Some? then Lookup(db.shows, ParseInt(idText).value) else None;
    if row.Some? then Ok(row.value) else NotFound(ShowNotFound)
  }

  /** GET /: every stored row, exactly once, in title order. */
  function ListShows(db: Store): (r: Reply<seq<Show>>)
    requires db.Valid()
    reads db
    ensures r.Ok?
    ensures SortedByTitle(r.body)
    ensures forall s :: multiset(r.body)[s] == if s.id in db.shows && db.shows[s.id] == s then 1 else 0
  {
    SelectAllSpec(db.shows, db.seqShows);
    Ok(SelectAll(db.shows, db.seqShows + 1))
  }

  /** GET /category/:category: the stored rows of that category, exactly once,
      in title order; an unknown category gives the empty list. */
  function ListShowsByCategory(db: Store, category: string): (r: Reply<seq<Show>>)
    requires db.Valid()
    reads db
    ensures r.Ok?
    ensures SortedByTitle(r.body)
    ensures forall s :: multiset(r.body)[s] ==
                        if s.category == category && s.id in db.shows && db.shows[s.id] == s then 1 else 0
    ensures !IsCategory(category) ==> r.body == []
  {
    SelectByCategorySpec(db.shows, db.seqShows, category);
    Ok(SelectByCategory(db.shows, db.seqShows + 1, category))
  }

  /** POST /. */
  method CreateShow(db: Store, form: ShowForm, file: Option<string>) returns (r: Reply<Show>)
    requires db.Valid()
    modifies db
    ensures db.Valid()
    ensures Validate(form) != [] ==> r == ValidationError(Validate(form)) && unchanged(db)
    ensures Validate(form) == [] && old(db.seqShows) == MaxRowId ==>
      r == InternalError("Error creating show") && unchanged(db)
    ensures Validate(form) == [] && old(db.seqShows) < MaxRowId ==>
      && r == Created(Show(old(db.seqShows) + 1, form.title.value, form.description.value,
                           form.category.value, CreatedImage(file)))
      && db.shows == old(db.shows)[r.body.id := r.body]
      && db.seqShows == r.body.id && db.lastInsertRowid == r.body.id
    // a following GET of the returned id yields the same fields
    ensures r.Created? ==> GetShow(db, IntText(r.body.id)) == Ok(r.body)
    ensures r.Created? ==> forall k :: k in old(db.shows) ==> k < r.body.id
    ensures Validated(old(db.shows)) ==> Validated(db.shows)
  {
    var errors := Validate(form);
    if errors != [] {
      return ValidationError(errors);
    }
    var title, description, category := form.title.value, form.description.value, form.category.value;
    var image := CreatedImage(file);
    var result := db.Insert(title, description, category, image);
    if result.Failure? {
      return InternalError("Error creating show");
    }
    var show := Show(result.value.lastID, title, description, category, image);
    assert db.shows == old(db.shows)[show.id := show];
    ParseIntText(show.id);
    assert Lookup(db.shows, show.id) == Some(show);
    r := Created(show);
  }

  /** PUT /:id. Validation comes before the existence check; without a file the
      stored image is kept, and the reply echoes the submitted (possibly absent) image. */
  method UpdateShow(db: Store, idText: string, form: ShowForm, file: Option<string>) returns (r: Reply<UpdatedShow>)
    requires db.Valid()
    modifies db
    ensures db.Valid()
    ensures Validate(form) != [] ==> r == ValidationError(Validate(form)) && unchanged(db)
    ensures Validate(form) == [] ==>
      if exists k :: ParseInt(idText) == Some(k) && k in old(db.shows) then
        var k := ParseInt(idText).value;
        && r == Ok(UpdatedShow(idText, form.title.value, form.description.value, form.category.value, UpdatedImage(file)))
        && db.shows == UpdateRow(old(db.shows), k, form.title.value, form.description.value,
                                 form.category.value, UpdatedImage(file)).0
        && db.shows[k].image == (if file.Some? then UpdatedImage(file) else old(db.shows[k].image))
      else
        r == NotFound(ShowNotFound) && db.shows == old(db.shows)
    ensures db.seqShows == old(db.seqShows) && db.lastInsertRowid == old(db.lastInsertRowid)
    ensures forall k :: k in old(db.shows) && Some(k) != ParseInt(idText) ==> k in db.shows && db.shows[k] == old(db.shows[k])
    ensures Validated(old(db.shows)) ==> Validated(db.shows)
  {
    var errors := Validate(form);
    if errors != [] {
      return ValidationError(errors);
    }
    var title, description, category := form.title.value, form.description.value, form.category.value;
    var image := UpdatedImage(file);
    var changes := 0;
    match ParseInt(idText) {
      case Some(k) =>
        var result := db.Update(k, title, description, category, image);
        if result.Failure? {
          return InternalError("Error updating show");
        }
        changes := result.value.changes;
      case None =>
        // the model treats a text ParseInt refuses as matching no row
    }
    if changes == 0 {
      return NotFound(ShowNotFound);
    }
    r := Ok(UpdatedShow(idText, title, description, category, image));
  }

  /** DELETE /:id. */
  method DeleteShow(db: Store, idText: string) returns (r: Reply<string>)
    requires db.Valid()
    modifies db
    ensures db.Valid()
    ensures !IsIntText(idText) ==> r == ValidationError([IdError(idText)]) && unchanged(db)
    ensures IsIntText(idText) ==>
      var k := ParseInt(idText).value;
      && db.shows == DeleteRow(old(db.shows), k).0
      && r == (if k in old(db.shows) then Ok(ShowDeleted) else NotFound(ShowNotFound))
    ensures db.seqShows == old(db.seqShows) && db.lastInsertRowid == old(db.lastInsertRowid)
    ensures Validated(old(db.shows)) ==> Validated(db.shows)
  {
    if !IsIntText(idText) {
      return ValidationError([IdError(idText)]);
    }
    var result := db.Delete(ParseInt(idText).value);
    if result.changes == 0 {
      return NotFound(ShowNotFound);
    }
    r := Ok(ShowDeleted);
  }

  /** Two DELETE requests for the same id: the second one finds nothing. */
  method DeleteTwice(db: Store, idText: string) returns (first: Reply<string>, second: Reply<string>)
    requires db.Valid()
    modifies db
    ensures db.Valid()
    ensures IsIntText(idText) ==> first == (if ParseInt(idText).value in old(db.shows) then Ok(ShowDeleted) else NotFound(ShowNotFound))
    ensures IsIntText(idText) ==> second == NotFound(ShowNotFound)
    ensures !IsIntText(idText) ==> first == second == ValidationError([IdError(idText)])
  {
    first := DeleteShow(db, idText);
    second := DeleteShow(db, idText);
  }
}
