/** The request checks shared by the two catalog write endpoints
    (public/backend/new-video.php and public/backend/edit-video.php): the
    mandatory fields, trimming and defaults, the language and music rules, and
    for an update the video id. */
module CatalogRules {
  import opened Optional
  import opened PhpText

  /** The nine columns of a VideoKidsCatalog row that the endpoints write. */
  datatype Entry = Entry(
    url: string, cover: string, collection: string, language: string,
    description: string, tags: string, music: int, album: string, ethan: string)

  /** A row as the endpoints echo it: music shown as a boolean. */
  datatype Echo = Echo(
    url: string, cover: string, collection: string, language: string,
    description: string, tags: string, music: bool, album: string, ethan: string)

  /** Why a write request was turned down before reaching the table. */
  datatype RequestError =
    | InvalidJson
    | MissingId
    | MissingField(field: string)
    | BadLanguage
    | BadMusic

  datatype Checked<T> = Ok(value: T) | Err(error: RequestError)

  const RequiredFields: seq<string> := ["url", "cover", "collection"]

  const Languages: set<string> := {"ES", "EN"}

  /** The music cell is shown through PHP's (bool) cast. */
  function Shown(e: Entry): Echo {
    Echo(e.url, e.cover, e.collection, e.language, e.description, e.tags,
         e.music != 0, e.album, e.ethan)
  }

  /** What the catalog keeps for every row written through these endpoints. */
  predicate WellFormed(e: Entry) {
    && !IsEmpty(e.url) && !IsEmpty(e.cover) && !IsEmpty(e.collection)
    && e.language in Languages
    && (e.music == 0 || e.music == 1)
    && IsTrimmed(e.url) && IsTrimmed(e.cover) && IsTrimmed(e.collection)
    && IsTrimmed(e.description) && IsTrimmed(e.tags)
    && IsTrimmed(e.album) && IsTrimmed(e.ethan)
  }

  /** empty(trim($input[$field] ?? '')) */
  predicate Missing(input: Input, field: string) {
    IsEmpty(FieldText(input, field))
  }

  /** s[k] satisfies p and no element before it does. */
  predicate FirstAt<T>(s: seq<T>, p: T -> bool, k: int) {
    && 0 <= k < |s|
    && p(s[k])
    && (forall j :: 0 <= j < k ==> !p(s[j]))
  }

  /** The first element of s that satisfies p. */
  function FirstWhere<T(==)>(s: seq<T>, p: T -> bool): (r: Option<T>)
    ensures r.None? <==> (forall i :: 0 <= i < |s| ==> !p(s[i]))
    ensures r.Some? ==> (exists k :: FirstAt(s, p, k) && s[k] == r.value)
    decreases |s|
  {
    if s == [] then None
    else if p(s[0]) then
      assert FirstAt(s, p, 0);
      Some(s[0])
    else
      var r := FirstWhere(s[1..], p);
      if r.Some? then
        var k :| FirstAt(s[1..], p, k) && s[1..][k] == r.value;
        assert FirstAt(s, p, k + 1);
        r
      else
        assert forall i :: 1 <= i < |s| ==> s[1..][i - 1] == s[i];
        r
  }

  /** The first of fields, in order, that is missing from the request. */
  function FirstMissing(input: Input, fields: seq<string>): Option<string> {
    FirstWhere(fields, f => Missing(input, f))
  }

  /** The foreach over the mandatory fields, leaving at the first missing one. */
  method CheckRequired(input: Input, fields: seq<string>) returns (missing: Option<string>)
    ensures missing == FirstMissing(input, fields)
  {
    for i := 0 to |fields|
      invariant FirstMissing(input, fields) == FirstMissing(input, fields[i..])
    {
      if Missing(input, fields[i]) {
        return Some(fields[i]);
      }
      assert fields[i..][1..] == fields[i + 1..];
    }
    assert fields[|fields|..] == [];
    return None;
  }

  /** The "prepare and sanitize" step: mandatory fields trimmed, optional ones
      trimmed when set and defaulted otherwise, music through (int). */
  function Prepare(input: Input): (e: Entry)
    ensures Isset(input, "url") ==> e.url == Trim(Text(input["url"]))
    ensures Isset(input, "cover") ==> e.cover == Trim(Text(input["cover"]))
    ensures Isset(input, "collection") ==> e.collection == Trim(Text(input["collection"]))
    ensures Isset(input, "description") ==> e.description == Trim(Text(input["description"]))
    ensures Isset(input, "tags") ==> e.tags == Trim(Text(input["tags"]))
    ensures Isset(input, "album") ==> e.album == Trim(Text(input["album"]))
    ensures Isset(input, "ethan") ==> e.ethan == Trim(Text(input["ethan"]))
    ensures Isset(input, "language") ==> e.language == Trim(Text(input["language"]))
    ensures !Isset(input, "language") ==> e.language == "ES"
    ensures Isset(input, "music") ==> e.music == IntCast(input["music"])
    ensures !Isset(input, "music") ==> e.music == 0
    ensures !Isset(input, "description") ==> e.description == ""
    ensures !Isset(input, "tags") ==> e.tags == ""
    ensures !Isset(input, "album") ==> e.album == ""
    ensures !Isset(input, "ethan") ==> e.ethan == ""
    ensures IsTrimmed(e.url) && IsTrimmed(e.cover) && IsTrimmed(e.collection)
    ensures IsTrimmed(e.description) && IsTrimmed(e.tags)
    ensures IsTrimmed(e.album) && IsTrimmed(e.ethan)
  {
    Entry(
      FieldText(input, "url"),
      FieldText(input, "cover"),
      FieldText(input, "collection"),
      OptionalText(input, "language", "ES"),
      OptionalText(input, "description", ""),
      OptionalText(input, "tags", ""),
      if Isset(input, "music") then IntCast(input["music"]) else 0,
      OptionalText(input, "album", ""),
      OptionalText(input, "ethan", ""))
  }

  /** The field checks common to insert and update, in the source's order:
      mandatory fields, then language, then music. */
  function CheckFields(input: Input): (r: Checked<Entry>)
    ensures r.Ok? ==> WellFormed(r.value) && r.value == Prepare(input)
    ensures r.Ok? <==> (FirstMissing(input, RequiredFields).None?
      && Prepare(input).language in Languages
      && (Prepare(input).music == 0 || Prepare(input).music == 1))
    ensures FirstMissing(input, RequiredFields).Some? ==>
      r == Err(MissingField(FirstMissing(input, RequiredFields).value))
    ensures r == Err(BadLanguage) <==>
      (FirstMissing(input, RequiredFields).None? && Prepare(input).language !in Languages)
    ensures r == Err(BadMusic) <==>
      (FirstMissing(input, RequiredFields).None? && Prepare(input).language in Languages
       && Prepare(input).music != 0 && Prepare(input).music != 1)
  {
    match FirstMissing(input, RequiredFields)
    case Some(field) => Err(MissingField(field))
    case None =>
      assert !Missing(input, RequiredFields[0]) && !Missing(input, RequiredFields[1])
        && !Missing(input, RequiredFields[2]);
      var e := Prepare(input);
      if e.language !in Languages then Err(BadLanguage)
      else if e.music != 0 && e.music != 1 then Err(BadMusic)
      else Ok(e)
  }

  /** new-video.php up to the INSERT: a decoded request (None when the body
      is not valid JSON) checked into the entry to store. */
  function CheckInsert(request: Option<Input>): (r: Checked<Entry>)
    ensures request.None? ==> r == Err(InvalidJson)
    ensures request.Some? ==> r == CheckFields(request.value)
    ensures r.Ok? ==> WellFormed(r.value)
  {
    match request
    case None => Err(InvalidJson)
    case Some(input) => CheckFields(input)
  }

  /** The id test of edit-video.php: !isset($input['id']) || empty(trim($input['id'])) */
  predicate MissingVideoId(input: Input): (b: bool)
    ensures !b ==> Isset(input, "id") && !IsEmpty(FieldText(input, "id"))
    ensures "id" in input && input["id"].Int? ==> (b <==> input["id"].i == 0)
  {
    if "id" in input && input["id"].Int? then
      IntIdBlank(input["id"].i);
      IsBlank(Text(input["id"]))
    else
      !Isset(input, "id") || IsBlank(Text(input["id"]))
  }

  /** A JSON number as the id is empty() after trim exactly when it is 0. */
  lemma IntIdBlank(i: int)
    ensures IsBlank(Text(Int(i))) <==> i == 0
  {
    BlankOfTrimmed(IntText(i));
  }

  lemma BlankOfTrimmed(t: string)
    requires IsTrimmed(t)
    ensures IsBlank(t) <==> IsEmpty(t)
  {
    TrimOfTrimmed(t);
  }

  /** edit-video.php up to the existence check: the id comes first, then the
      very same field checks as an insert; the id is (int)$input['id']. */
  function CheckUpdate(request: Option<Input>): (r: Checked<(int, Entry)>)
    ensures request.None? ==> r == Err(InvalidJson)
    ensures request.Some? && MissingVideoId(request.value) ==> r == Err(MissingId)
    ensures request.Some? && !MissingVideoId(request.value) ==>
      match CheckFields(request.value)
      case Err(e) => r == Err(e)
      case Ok(entry) => r == Ok((IntCast(request.value["id"]), entry))
    ensures r.Ok? ==> WellFormed(r.value.1)
  {
    match request
    case None => Err(InvalidJson)
    case Some(input) =>
      if MissingVideoId(input) then Err(MissingId)
      else
        match CheckFields(input)
        case Err(e) => Err(e)
        case Ok(entry) => Ok((IntCast(input["id"]), entry))
  }

  /** An update request is judged by the insert rules once its id is present:
      the same error, or the same entry to store. */
  lemma UpdateChecksMatchInsert(input: Input)
    requires !MissingVideoId(input)
    ensures CheckUpdate(Some(input)).Err? <==> CheckInsert(Some(input)).Err?
    ensures CheckUpdate(Some(input)).Err? ==>
      CheckUpdate(Some(input)).error == CheckInsert(Some(input)).error
    ensures CheckUpdate(Some(input)).Ok? ==>
      CheckUpdate(Some(input)).value.1 == CheckInsert(Some(input)).value
  {
  }
}
