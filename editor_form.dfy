/** The editor popup of src/components/NewEditPopup.jsx: the text helpers it
    applies to what the user types (iframe src extraction, generated cover
    and album names, collection suggestions), the form record and the event
    handlers that update it, the validation before a save, the JSON payload
    a save sends, and the cached list of collection names. */
module EditorForm {
  import opened Optional
  import opened PhpText
  import opened LexOrder
  import opened CatalogRules
  import opened CatalogQuery

  // ----- JavaScript whitespace -----

  /** The characters String.prototype.trim removes and the regular
      expression class \s matches: WhiteSpace and LineTerminator. */
  predicate IsJsSpace(c: char) {
    || c == '\t' || c == '\n' || c == '\U{B}' || c == '\U{C}' || c == '\r' || c == ' '
    || c == '\U{A0}' || c == '\U{1680}' || ('\U{2000}' <= c <= '\U{200A}')
    || c == '\U{2028}' || c == '\U{2029}' || c == '\U{202F}' || c == '\U{205F}'
    || c == '\U{3000}' || c == '\U{FEFF}'
  }

  /** Text made of whitespace only, the strings for which !s.trim() holds. */
  predicate JsBlank(s: string) {
    forall i :: 0 <= i < |s| ==> IsJsSpace(s[i])
  }

  function JsTrimStart(s: string): (r: string)
    ensures |r| <= |s| && r == s[|s| - |r|..]
    ensures r == [] || !IsJsSpace(r[0])
    ensures forall i :: 0 <= i < |s| - |r| ==> IsJsSpace(s[i])
    decreases |s|
  {
    if s != [] && IsJsSpace(s[0]) then JsTrimStart(s[1..]) else s
  }

  function JsTrimEnd(s: string): (r: string)
    ensures |r| <= |s| && r == s[..|r|]
    ensures r == [] || !IsJsSpace(r[|r| - 1])
    ensures forall i :: |r| <= i < |s| ==> IsJsSpace(s[i])
    decreases |s|
  {
    if s != [] && IsJsSpace(s[|s| - 1]) then JsTrimEnd(s[..|s| - 1]) else s
  }

  /** String.prototype.trim: the text without whitespace at either end; it is
      empty exactly for blank text. */
  function JsTrim(s: string): (r: string)
    ensures r == [] || (!IsJsSpace(r[0]) && !IsJsSpace(r[|r| - 1]))
    ensures r == [] <==> JsBlank(s)
  {
    var l := JsTrimStart(s);
    var r := JsTrimEnd(l);
    assert r != [] ==> r[0] == l[0];
    assert l == [] ==> JsBlank(s);
    r
  }

  // ----- extractSrcFromIframe -----

  predicate IsQuote(c: char) {
    c == '"' || c == '\''
  }

  /** The first quote at or after position j. */
  function NextQuote(s: string, j: nat): (r: Option<nat>)
    requires j <= |s|
    ensures r.Some? ==> (j <= r.value < |s| && IsQuote(s[r.value])
      && (forall k :: j <= k < r.value ==> !IsQuote(s[k])))
    ensures r.None? ==> forall k :: j <= k < |s| ==> !IsQuote(s[k])
    decreases |s| - j
  {
    if j == |s| then None
    else if IsQuote(s[j]) then Some(j)
    else NextQuote(s, j + 1)
  }

  /** The expression /src=["']([^"']+)["']/ matches at position i: src=, a
      quote, a non-empty run of non-quote characters, and a closing quote. */
  predicate MatchAt(s: string, i: int) {
    && 0 <= i && i + 5 < |s|
    && s[i..i + 4] == "src=" && IsQuote(s[i + 4])
    && !IsQuote(s[i + 5]) && NextQuote(s, i + 5).Some?
  }

  /** The group ([^"']+) of the match at i: the whole run up to the next quote. */
  function Capture(s: string, i: int): (r: string)
    requires MatchAt(s, i)
    ensures r != [] && forall k :: 0 <= k < |r| ==> !IsQuote(r[k])
  {
    s[i + 5..NextQuote(s, i + 5).value]
  }

  /** The leftmost match at or after position i. */
  function FirstMatch(s: string, i: nat): (r: Option<nat>)
    requires i <= |s|
    ensures r.Some? ==> (i <= r.value && MatchAt(s, r.value)
      && (forall k :: i <= k < r.value ==> !MatchAt(s, k)))
    ensures r.None? ==> forall k :: i <= k ==> !MatchAt(s, k)
    decreases |s| - i
  {
    if i == |s| then None
    else if MatchAt(s, i) then Some(i)
    else FirstMatch(s, i + 1)
  }

  /** extractSrcFromIframe: the src of the first quoted src attribute, or the
      trimmed text when there is none. */
  function ExtractSrc(code: string): (r: string)
    ensures code == [] ==> r == []
    ensures (exists i :: MatchAt(code, i)) ==>
      r != [] && forall k :: 0 <= k < |r| ==> !IsQuote(r[k])
    ensures (forall i :: !MatchAt(code, i)) ==> r == JsTrim(code)
  {
    if code == [] then []
    else
      match FirstMatch(code, 0)
      case Some(i) => Capture(code, i)
      case None => JsTrim(code)
  }

  /** An iframe tag whose first src attribute is quoted gives back exactly the
      URL inside the quotes. */
  lemma ExtractSrcOfTag(pre: string, open: char, url: string, close: char, post: string)
    requires IsQuote(open) && IsQuote(close)
    requires url != [] && forall k :: 0 <= k < |url| ==> !IsQuote(url[k])
    requires forall i :: 0 <= i < |pre| ==>
      !MatchAt(pre + "src=" + [open] + url + [close] + post, i)
    ensures ExtractSrc(pre + "src=" + [open] + url + [close] + post) == url
  {
    var s := pre + "src=" + [open] + url + [close] + post;
    var p := |pre|;
    var q := p + 5 + |url|;
    assert s[p..p + 4] == "src=";
    assert s[p + 4] == open;
    assert s[p + 5..q] == url;
    assert s[p + 5] == url[0];
    assert s[q] == close;
    forall k | p + 5 <= k < q ensures !IsQuote(s[k]) {
      assert s[k] == url[k - p - 5];
    }
    var nq := NextQuote(s, p + 5);
    assert nq == Some(q);
    assert MatchAt(s, p);
    var m := FirstMatch(s, 0);
    assert m == Some(p);
  }

  /** Text without quotes, such as a bare URL, is only trimmed. */
  lemma ExtractSrcOfBareText(s: string)
    requires forall k :: 0 <= k < |s| ==> !IsQuote(s[k])
    ensures ExtractSrc(s) == JsTrim(s)
  {
    forall i ensures !MatchAt(s, i) {
      if 0 <= i && i + 5 < |s| {
        assert !IsQuote(s[i + 4]);
      }
    }
  }

  // ----- generateCoverName and generateAlbumName -----

  /** Math.floor(10000 + r * 90000) for the value r of Math.random(). */
  function RandomSuffix(r: real): (n: nat)
    requires 0.0 <= r < 1.0
    ensures 10000 <= n <= 99999
  {
    (10000.0 + r * 90000.0).Floor
  }

  /** The characters starting at the first non-whitespace one. */
  function SkipSpaces(s: string): (r: string)
    ensures |r| < |s| || r == s
    ensures r == s[|s| - |r|..]
    ensures r == [] || !IsJsSpace(r[0])
    ensures forall i :: 0 <= i < |s| - |r| ==> IsJsSpace(s[i])
    decreases |s|
  {
    if s != [] && IsJsSpace(s[0]) then SkipSpaces(s[1..]) else s
  }

  /** s.replace(/\s+/g, '-'): every run of whitespace becomes one dash. */
  function DashRuns(s: string): (r: string)
    ensures forall i :: 0 <= i < |r| ==> !IsJsSpace(r[i])
    ensures |r| <= |s|
    ensures r == [] <==> s == []
    decreases |s|
  {
    if s == [] then []
    else if IsJsSpace(s[0]) then "-" + DashRuns(SkipSpaces(s[1..]))
    else [s[0]] + DashRuns(s[1..])
  }

  /** Text without whitespace is left as it is. */
  lemma {:induction false} DashRunsWithoutSpace(s: string)
    requires forall i :: 0 <= i < |s| ==> !IsJsSpace(s[i])
    ensures DashRuns(s) == s
    decreases |s|
  {
    if s != [] {
      DashRunsWithoutSpace(s[1..]);
      assert s == [s[0]] + s[1..];
    }
  }

  /** A whitespace run between two non-space characters, or at either end,
      becomes exactly one dash, and what lies on either side is rewritten on
      its own. With DashRunsWithoutSpace this fixes DashRuns on every input. */
  lemma {:induction false} DashRunsSplit(a: string, w: string, b: string)
    requires a == [] || !IsJsSpace(a[|a| - 1])
    requires w != [] && forall i :: 0 <= i < |w| ==> IsJsSpace(w[i])
    requires b == [] || !IsJsSpace(b[0])
    ensures DashRuns(a + w + b) == DashRuns(a) + "-" + DashRuns(b)
    decreases |a|, 1
  {
    if a == [] {
      SplitAtRun(w, b);
      assert a + w + b == w + b;
    } else if !IsJsSpace(a[0]) {
      SplitLetterCase(a, w, b);
    } else {
      SplitSpaceCase(a, w, b);
    }
  }

  /** DashRunsSplit when a starts with a non-space character. */
  lemma {:induction false} SplitLetterCase(a: string, w: string, b: string)
    requires a != [] && !IsJsSpace(a[0]) && !IsJsSpace(a[|a| - 1])
    requires w != [] && forall i :: 0 <= i < |w| ==> IsJsSpace(w[i])
    requires b == [] || !IsJsSpace(b[0])
    ensures DashRuns(a + w + b) == DashRuns(a) + "-" + DashRuns(b)
    decreases |a|, 0
  {
    var t := a[1..];
    assert t == [] || t[|t| - 1] == a[|a| - 1];
    DashRunsSplit(t, w, b);
    Regroup(t, w, b);
    SplitAfterLetter(a, w + b, DashRuns(b));
    Regroup(a, w, b);
  }

  /** DashRunsSplit when a starts with whitespace. */
  lemma {:induction false} SplitSpaceCase(a: string, w: string, b: string)
    requires a != [] && IsJsSpace(a[0]) && !IsJsSpace(a[|a| - 1])
    requires w != [] && forall i :: 0 <= i < |w| ==> IsJsSpace(w[i])
    requires b == [] || !IsJsSpace(b[0])
    ensures DashRuns(a + w + b) == DashRuns(a) + "-" + DashRuns(b)
    decreases |a|, 0
  {
    var t := a[1..];
    var c := SkipSpaces(t);
    SkipSpacesKeepsLast(t);
    DashRunsSplit(c, w, b);
    Regroup(c, w, b);
    SkipSpacesAppend(t, w + b);
    SplitAfterSpace(a, w + b, c, DashRuns(b));
    Regroup(a, w, b);
  }

  lemma Regroup(x: string, y: string, z: string)
    ensures x + y + z == x + (y + z)
  {
  }

  /** Skipping leading whitespace keeps a final non-space character. */
  lemma SkipSpacesKeepsLast(t: string)
    requires t != [] && !IsJsSpace(t[|t| - 1])
    ensures SkipSpaces(t) != [] && SkipSpaces(t)[|SkipSpaces(t)| - 1] == t[|t| - 1]
  {
  }

  /** The run at the front: DashRuns(w + b) is a dash and DashRuns(b). */
  lemma SplitAtRun(w: string, b: string)
    requires w != [] && forall i :: 0 <= i < |w| ==> IsJsSpace(w[i])
    requires b == [] || !IsJsSpace(b[0])
    ensures DashRuns(w + b) == "-" + DashRuns(b)
  {
    var x := w + b;
    ConsTail(w, b);
    SkipSpacesOfRun(w, b);
    assert IsJsSpace(x[0]) && SkipSpaces(x) == SkipSpaces(x[1..]);
  }

  /** One step of the rewrite at a non-space first character. */
  lemma SplitAfterLetter(a: string, rest: string, tail: string)
    requires a != [] && !IsJsSpace(a[0])
    requires DashRuns(a[1..] + rest) == DashRuns(a[1..]) + "-" + tail
    ensures DashRuns(a + rest) == DashRuns(a) + "-" + tail
  {
    var x := a + rest;
    ConsTail(a, rest);
    assert DashRuns(x) == [a[0]] + DashRuns(x[1..]);
    assert DashRuns(a) == [a[0]] + DashRuns(a[1..]);
    ConcatAssoc([a[0]], DashRuns(a[1..]), "-", tail);
  }

  lemma ConcatAssoc(p: string, q: string, r: string, t: string)
    ensures p + (q + r + t) == p + q + r + t
  {
  }

  lemma ConsTail(a: string, rest: string)
    requires a != []
    ensures (a + rest)[0] == a[0] && (a + rest)[1..] == a[1..] + rest
  {
  }

  /** One step of the rewrite at a leading whitespace run of a. */
  lemma SplitAfterSpace(a: string, rest: string, c: string, tail: string)
    requires a != [] && IsJsSpace(a[0])
    requires c == SkipSpaces(a[1..]) && SkipSpaces(a[1..] + rest) == c + rest
    requires DashRuns(c + rest) == DashRuns(c) + "-" + tail
    ensures DashRuns(a + rest) == DashRuns(a) + "-" + tail
  {
    var x := a + rest;
    ConsTail(a, rest);
    assert DashRuns(x) == "-" + DashRuns(c + rest);
    assert DashRuns(a) == "-" + DashRuns(c);
    ConcatAssoc("-", DashRuns(c), "-", tail);
  }

  lemma {:induction false} SkipSpacesOfRun(w: string, b: string)
    requires forall i :: 0 <= i < |w| ==> IsJsSpace(w[i])
    requires b == [] || !IsJsSpace(b[0])
    ensures SkipSpaces(w + b) == b
    decreases |w|
  {
    if w == [] {
      assert w + b == b;
    } else {
      assert (w + b)[1..] == w[1..] + b;
      SkipSpacesOfRun(w[1..], b);
    }
  }

  lemma {:induction false} SkipSpacesAppend(s: string, t: string)
    requires SkipSpaces(s) != []
    ensures SkipSpaces(s + t) == SkipSpaces(s) + t
    decreases |s|
  {
    if IsJsSpace(s[0]) {
      assert (s + t)[1..] == s[1..] + t;
      SkipSpacesAppend(s[1..], t);
    }
  }

  /** generateCoverName: "" for a blank collection, otherwise the lower-cased
      collection with dashes for whitespace, a dash and a five-digit number. */
  function CoverName(collection: string, r: real): (cover: string)
    requires 0.0 <= r < 1.0
    ensures JsBlank(collection) ==> cover == []
    ensures !JsBlank(collection) ==>
      cover == DashRuns(Lower(collection)) + "-" + NaturalText(RandomSuffix(r))
  {
    if JsBlank(collection) then []
    else DashRuns(Lower(collection)) + "-" + NaturalText(RandomSuffix(r))
  }

  lemma NaturalTextOfFiveDigits(n: nat)
    requires 10000 <= n <= 99999
    ensures |NaturalText(n)| == 5
  {
    var a := n / 10;
    var b := a / 10;
    var c := b / 10;
    var d := c / 10;
    assert 1 <= d < 10 && 10 <= c && 100 <= b && 1000 <= a;
    assert |NaturalText(d)| == 1;
    assert |NaturalText(c)| == 2;
    assert |NaturalText(b)| == 3;
    assert |NaturalText(a)| == 4;
  }

  /** A generated cover has no whitespace and ends with a dash and five
      digits; what precedes them is the collection's slug. */
  lemma CoverNameShape(collection: string, r: real)
    requires 0.0 <= r < 1.0 && !JsBlank(collection)
    ensures var cover := CoverName(collection, r);
      && |cover| >= 7
      && cover[..|cover| - 6] == DashRuns(Lower(collection))
      && cover[|cover| - 6] == '-'
      && (forall i :: |cover| - 5 <= i < |cover| ==> IsDigit(cover[i]))
      && (forall i :: 0 <= i < |cover| ==> !IsJsSpace(cover[i]))
  {
    var slug := DashRuns(Lower(collection));
    var digits := NaturalText(RandomSuffix(r));
    NaturalTextOfFiveDigits(RandomSuffix(r));
    var cover := slug + "-" + digits;
    assert slug != [] by {
      assert collection != [];
    }
    assert cover[..|cover| - 6] == slug;
    forall i | |cover| - 5 <= i < |cover| ensures IsDigit(cover[i]) {
      assert cover[i] == digits[i - |slug| - 1];
    }
    forall i | 0 <= i < |cover| ensures !IsJsSpace(cover[i]) {
      if i < |slug| {
        assert cover[i] == slug[i];
      } else if i > |slug| {
        assert cover[i] == digits[i - |slug| - 1];
      }
    }
  }

  /** generateAlbumName */
  function AlbumName(cover: string): (album: string)
    ensures JsBlank(cover) ==> album == []
    ensures !JsBlank(cover) ==> album == cover + "-a"
  {
    if JsBlank(cover) then [] else cover + "-a"
  }

  /** The album generated for a generated cover is that cover followed by -a. */
  lemma AlbumOfGeneratedCover(collection: string, r: real)
    requires 0.0 <= r < 1.0 && !JsBlank(collection)
    ensures !JsBlank(CoverName(collection, r))
    ensures AlbumName(CoverName(collection, r)) == CoverName(collection, r) + "-a"
  {
    CoverNameShape(collection, r);
    var cover := CoverName(collection, r);
    assert !IsJsSpace(cover[0]);
  }

  // ----- collection suggestions -----

  predicate OccursAt(s: string, t: string, i: int) {
    0 <= i && i + |t| <= |s| && s[i..i + |t|] == t
  }

  /** String.prototype.includes */
  predicate Contains(s: string, t: string) {
    exists i :: 0 <= i <= |s| && OccursAt(s, t, i)
  }

  /** collection.toLowerCase().includes(searchTerm) */
  predicate Suggested(collection: string, input: string) {
    Contains(Lower(collection), Lower(input))
  }

  /** a is b with some elements left out, the others in their order. */
  predicate IsSubsequence<T(==)>(a: seq<T>, b: seq<T>)
    decreases |b|
  {
    if b == [] then a == []
    else (a != [] && a[0] == b[0] && IsSubsequence(a[1..], b[1..])) || IsSubsequence(a, b[1..])
  }

  /** collections.filter(...): the suggested ones, each as often as listed. */
  function KeepSuggested(collections: seq<string>, input: string): (r: seq<string>)
    ensures IsSubsequence(r, collections)
    ensures forall c :: multiset(r)[c] == if Suggested(c, input) then multiset(collections)[c] else 0
    decreases |collections|
  {
    if collections == [] then []
    else
      var rest := KeepSuggested(collections[1..], input);
      assert collections == [collections[0]] + collections[1..];
      if Suggested(collections[0], input) then
        assert ([collections[0]] + rest)[1..] == rest;
        [collections[0]] + rest
      else rest
  }

  /** The suggestion list of the collection field: every collection while the
      field is blank, otherwise those containing the typed text, ignoring
      case, in their order. */
  function Suggestions(collections: seq<string>, input: string): (r: seq<string>)
    ensures IsSubsequence(r, collections)
    ensures JsBlank(input) ==> r == collections
    ensures !JsBlank(input) ==> forall c :: c in r <==> c in collections && Suggested(c, input)
  {
    if JsBlank(input) then
      SubsequenceOfItself(collections);
      collections
    else
      var r := KeepSuggested(collections, input);
      assert forall c :: c in r <==> multiset(r)[c] > 0;
      assert forall c :: c in collections <==> multiset(collections)[c] > 0;
      r
  }

  lemma {:induction false} SubsequenceOfItself<T>(s: seq<T>)
    ensures IsSubsequence(s, s)
    decreases |s|
  {
    if s != [] {
      SubsequenceOfItself(s[1..]);
    }
  }

  // ----- the form record -----

  datatype Mode = New | Edit

  /** formData. ethan is carried so that an edit sends the stored value back. */
  datatype FormData = FormData(
    id: Option<int>, url: string, cover: string, collection: string, language: string,
    description: string, tags: string, music: bool, album: string, ethan: string)

  /** getInitialFormData: the row being edited, with language "ES" when it
      has none, or an empty form. */
  function InitialFormData(mode: Mode, video: Option<VideoRow>): (f: FormData)
    ensures mode == New || video.None? ==>
      f == FormData(None, "", "", "", "ES", "", "", false, "", "")
    ensures mode == Edit && video.Some? ==>
      var v := video.value.data;
      && f.id == Some(video.value.id)
      && f.url == v.url && f.cover == v.cover && f.collection == v.collection
      && f.language == (if v.language == "" then "ES" else v.language)
      && f.description == v.description && f.tags == v.tags
      && f.music == v.music && f.album == v.album && f.ethan == v.ethan
  {
    if mode == Edit && video.Some? then
      var v := video.value.data;
      FormData(Some(video.value.id), v.url, v.cover, v.collection,
               if v.language == "" then "ES" else v.language,
               v.description, v.tags, v.music, v.album, v.ethan)
    else
      FormData(None, "", "", "", "ES", "", "", false, "", "")
  }

  datatype FormError = UrlRequired | CoverRequired | CollectionRequired

  /** validateForm's verdict: the first blank field among url, cover and
      collection. */
  function FirstFormError(f: FormData): (r: Option<FormError>)
    ensures r.None? <==> !JsBlank(f.url) && !JsBlank(f.cover) && !JsBlank(f.collection)
    ensures r == Some(UrlRequired) <==> JsBlank(f.url)
    ensures r == Some(CoverRequired) <==> !JsBlank(f.url) && JsBlank(f.cover)
  {
    if JsBlank(f.url) then Some(UrlRequired)
    else if JsBlank(f.cover) then Some(CoverRequired)
    else if JsBlank(f.collection) then Some(CollectionRequired)
    else None
  }

  /** The JSON body a save sends, { ...formData, music: 0 or 1 }, as the
      endpoint decodes it. */
  function SubmitPayload(f: FormData): (p: Input)
    ensures p.Keys == {"id", "url", "cover", "collection", "language", "description",
                       "tags", "music", "album", "ethan"}
    ensures p["music"] == Int(if f.music then 1 else 0)
    ensures p["ethan"] == Str(f.ethan)
  {
    map[
      "id" := (if f.id.Some? then Int(f.id.value) else Null),
      "url" := Str(f.url), "cover" := Str(f.cover), "collection" := Str(f.collection),
      "language" := Str(f.language), "description" := Str(f.description),
      "tags" := Str(f.tags), "music" := Int(if f.music then 1 else 0),
      "album" := Str(f.album), "ethan" := Str(f.ethan)]
  }

  /** The body as the component builds it: its form has no ethan field, so
      the key is absent. */
  function SubmitPayloadAsWritten(f: FormData): (p: Input)
    ensures "ethan" !in p
    ensures forall k :: k in p ==> k in SubmitPayload(f) && p[k] == SubmitPayload(f)[k]
  {
    map k | k in SubmitPayload(f) && k != "ethan" :: SubmitPayload(f)[k]
  }

  /** A trimmed string field reads back unchanged on the server. */
  lemma StrFieldReadsBack(p: Input, key: string, s: string)
    requires key in p && p[key] == Str(s) && IsTrimmed(s)
    ensures FieldText(p, key) == s && OptionalText(p, key, "") == s
  {
    TrimOfTrimmed(s);
  }

  /** A request carrying a stored row's values passes edit-video.php's
      checks and asks to store that row, ethan included when it is sent. */
  lemma StoredRowPassesChecks(p: Input, id: int, e: Entry)
    requires WellFormed(e) && id >= 1
    requires "id" in p && p["id"] == Int(id)
    requires "url" in p && p["url"] == Str(e.url)
    requires "cover" in p && p["cover"] == Str(e.cover)
    requires "collection" in p && p["collection"] == Str(e.collection)
    requires "language" in p && p["language"] == Str(e.language)
    requires "description" in p && p["description"] == Str(e.description)
    requires "tags" in p && p["tags"] == Str(e.tags)
    requires "music" in p && p["music"] == Int(e.music)
    requires "album" in p && p["album"] == Str(e.album)
    requires "ethan" in p ==> p["ethan"] == Str(e.ethan)
    ensures CheckUpdate(Some(p)) == Ok((id, if "ethan" in p then e else e.(ethan := "")))
  {
    assert Text(p["id"]) == IntText(id);
    TrimOfTrimmed(IntText(id));
    assert !MissingVideoId(p);
    StoredRowFieldsPass(p, e);
  }

  lemma StoredRowFieldsPass(p: Input, e: Entry)
    requires WellFormed(e)
    requires "url" in p && p["url"] == Str(e.url)
    requires "cover" in p && p["cover"] == Str(e.cover)
    requires "collection" in p && p["collection"] == Str(e.collection)
    requires "language" in p && p["language"] == Str(e.language)
    requires "description" in p && p["description"] == Str(e.description)
    requires "tags" in p && p["tags"] == Str(e.tags)
    requires "music" in p && p["music"] == Int(e.music)
    requires "album" in p && p["album"] == Str(e.album)
    requires "ethan" in p ==> p["ethan"] == Str(e.ethan)
    ensures CheckFields(p) == Ok(if "ethan" in p then e else e.(ethan := ""))
  {
    StoredRowPrepares(p, e);
    StoredRowHasRequired(p, e);
  }

  lemma StoredRowPrepares(p: Input, e: Entry)
    requires WellFormed(e)
    requires "url" in p && p["url"] == Str(e.url)
    requires "cover" in p && p["cover"] == Str(e.cover)
    requires "collection" in p && p["collection"] == Str(e.collection)
    requires "language" in p && p["language"] == Str(e.language)
    requires "description" in p && p["description"] == Str(e.description)
    requires "tags" in p && p["tags"] == Str(e.tags)
    requires "music" in p && p["music"] == Int(e.music)
    requires "album" in p && p["album"] == Str(e.album)
    requires "ethan" in p ==> p["ethan"] == Str(e.ethan)
    ensures Prepare(p) == if "ethan" in p then e else e.(ethan := "")
  {
    if "ethan" in p {
      PreparedFields(p, e.url, e.cover, e.collection, e.language, e.description, e.tags,
                     e.music, e.album, e.ethan);
    } else {
      PreparedFieldsWithoutEthan(p, e.url, e.cover, e.collection, e.language, e.description,
                                 e.tags, e.music, e.album);
    }
  }

  /** Prepare on a request whose fields are trimmed strings and music an int. */
  lemma PreparedFields(p: Input, url: string, cover: string, collection: string, language: string,
                       description: string, tags: string, music: int, album: string, ethan: string)
    requires "url" in p && p["url"] == Str(url) && IsTrimmed(url)
    requires "cover" in p && p["cover"] == Str(cover) && IsTrimmed(cover)
    requires "collection" in p && p["collection"] == Str(collection) && IsTrimmed(collection)
    requires "language" in p && p["language"] == Str(language) && IsTrimmed(language)
    requires "description" in p && p["description"] == Str(description) && IsTrimmed(description)
    requires "tags" in p && p["tags"] == Str(tags) && IsTrimmed(tags)
    requires "music" in p && p["music"] == Int(music)
    requires "album" in p && p["album"] == Str(album) && IsTrimmed(album)
    requires "ethan" in p && p["ethan"] == Str(ethan) && IsTrimmed(ethan)
    ensures Prepare(p) == Entry(url, cover, collection, language, description, tags, music, album, ethan)
  {
    StrFieldReadsBack(p, "url", url);
    StrFieldReadsBack(p, "cover", cover);
    StrFieldReadsBack(p, "collection", collection);
    StrFieldReadsBack(p, "language", language);
    StrFieldReadsBack(p, "description", description);
    StrFieldReadsBack(p, "tags", tags);
    StrFieldReadsBack(p, "album", album);
    StrFieldReadsBack(p, "ethan", ethan);
  }

  /** The same request without an ethan key: ethan defaults to "". */
  lemma PreparedFieldsWithoutEthan(p: Input, url: string, cover: string, collection: string,
                                   language: string, description: string, tags: string,
                                   music: int, album: string)
    requires "url" in p && p["url"] == Str(url) && IsTrimmed(url)
    requires "cover" in p && p["cover"] == Str(cover) && IsTrimmed(cover)
    requires "collection" in p && p["collection"] == Str(collection) && IsTrimmed(collection)
    requires "language" in p && p["language"] == Str(language) && IsTrimmed(language)
    requires "description" in p && p["description"] == Str(description) && IsTrimmed(description)
    requires "tags" in p && p["tags"] == Str(tags) && IsTrimmed(tags)
    requires "music" in p && p["music"] == Int(music)
    requires "album" in p && p["album"] == Str(album) && IsTrimmed(album)
    requires "ethan" !in p
    ensures Prepare(p) == Entry(url, cover, collection, language, description, tags, music, album, "")
  {
    StrFieldReadsBack(p, "url", url);
    StrFieldReadsBack(p, "cover", cover);
    StrFieldReadsBack(p, "collection", collection);
    StrFieldReadsBack(p, "language", language);
    StrFieldReadsBack(p, "description", description);
    StrFieldReadsBack(p, "tags", tags);
    StrFieldReadsBack(p, "album", album);
  }

  lemma StoredRowHasRequired(p: Input, e: Entry)
    requires WellFormed(e)
    requires "url" in p && p["url"] == Str(e.url)
    requires "cover" in p && p["cover"] == Str(e.cover)
    requires "collection" in p && p["collection"] == Str(e.collection)
    ensures FirstMissing(p, RequiredFields).None?
  {
    StrFieldReadsBack(p, "url", e.url);
    StrFieldReadsBack(p, "cover", e.cover);
    StrFieldReadsBack(p, "collection", e.collection);
    var missing := f => Missing(p, f);
    assert !missing("url") && !missing("cover") && !missing("collection");
    assert FirstWhere(RequiredFields, missing).None?;
  }

  lemma PayloadOfStoredRow(id: int, e: Entry)
    requires WellFormed(e)
    ensures var p := SubmitPayload(InitialFormData(Edit, Some(VideoRow(id, Shown(e)))));
      && p["id"] == Int(id) && p["music"] == Int(e.music)
      && p["url"] == Str(e.url) && p["cover"] == Str(e.cover)
      && p["collection"] == Str(e.collection) && p["language"] == Str(e.language)
      && p["description"] == Str(e.description) && p["tags"] == Str(e.tags)
      && p["album"] == Str(e.album) && p["ethan"] == Str(e.ethan)
  {
  }

  /** Opening a stored row in the editor and saving it unchanged asks
      edit-video.php to store exactly that row again. */
  lemma EditRoundTrip(id: int, e: Entry)
    requires WellFormed(e) && id >= 1
    ensures CheckUpdate(Some(SubmitPayload(InitialFormData(Edit, Some(VideoRow(id, Shown(e))))))) == Ok((id, e))
  {
    var p := SubmitPayload(InitialFormData(Edit, Some(VideoRow(id, Shown(e)))));
    PayloadOfStoredRow(id, e);
    StoredRowPassesChecks(p, id, e);
  }

  /** As written, the same unchanged save stores the row with ethan emptied. */
  lemma EditRoundTripAsWritten(id: int, e: Entry)
    requires WellFormed(e) && id >= 1
    ensures CheckUpdate(Some(SubmitPayloadAsWritten(InitialFormData(Edit, Some(VideoRow(id, Shown(e)))))))
      == Ok((id, e.(ethan := "")))
  {
    var f := InitialFormData(Edit, Some(VideoRow(id, Shown(e))));
    var p := SubmitPayloadAsWritten(f);
    PayloadOfStoredRow(id, e);
    assert forall k :: k in p ==> p[k] == SubmitPayload(f)[k];
    assert "id" in p && "url" in p && "cover" in p && "collection" in p && "language" in p;
    assert "description" in p && "tags" in p && "music" in p && "album" in p;
    StoredRowPassesChecks(p, id, e);
  }

  /** The fields handleInputChange serves besides the music checkbox. */
  datatype TextField = AlbumField | LanguageField | DescriptionField | TagsField

  datatype InputEvent = TextChange(field: TextField, value: string) | MusicChange(checked: bool)

  /** { ...formData, [name]: value } */
  function WithText(f: FormData, field: TextField, value: string): (g: FormData)
    ensures field == AlbumField ==> g == f.(album := value)
    ensures field == LanguageField ==> g == f.(language := value)
    ensures field == DescriptionField ==> g == f.(description := value)
    ensures field == TagsField ==> g == f.(tags := value)
  {
    match field
    case AlbumField => f.(album := value)
    case LanguageField => f.(language := value)
    case DescriptionField => f.(description := value)
    case TagsField => f.(tags := value)
  }

  /** With music on and a cover present, the album is the cover followed by -a. */
  predicate AlbumFollowsCover(f: FormData) {
    f.music && !JsBlank(f.cover) ==> f.album == f.cover + "-a"
  }

  /** What the collection effect makes of the form: in new mode, with a
      non-blank collection, a fresh cover, and an album that belongs to it
      when music is on and is emptied otherwise. */
  function CollectionEffectOn(mode: Mode, f: FormData, r: real): (g: FormData)
    requires 0.0 <= r < 1.0
    ensures mode == Edit || JsBlank(f.collection) ==> g == f
    ensures mode == New && !JsBlank(f.collection) ==>
      g == f.(cover := CoverName(f.collection, r),
              album := if f.music then CoverName(f.collection, r) + "-a" else "")
    ensures mode == New && !JsBlank(f.collection) ==> AlbumFollowsCover(g)
  {
    if mode == New && JsTrim(f.collection) != "" then
      var cover := CoverName(f.collection, r);
      AlbumOfGeneratedCover(f.collection, r);
      f.(cover := cover, album := if f.music then AlbumName(cover) else "")
    else f
  }

  /** What the cover effect makes of the form: in new mode, with music on and
      a non-blank cover, the album follows the cover. */
  function CoverEffectOn(mode: Mode, f: FormData): (g: FormData)
    ensures mode == New && f.music && !JsBlank(f.cover) ==> g == f.(album := f.cover + "-a")
    ensures !(mode == New && f.music && !JsBlank(f.cover)) ==> g == f
    ensures mode == New ==> AlbumFollowsCover(g)
  {
    if mode == New && f.music && JsTrim(f.cover) != "" then f.(album := AlbumName(f.cover))
    else f
  }

  /** The cover the collection effect writes sets off the cover effect, which
      then changes nothing: the two effects settle after one round. */
  lemma EffectsSettle(f: FormData, r: real)
    requires 0.0 <= r < 1.0 && !JsBlank(f.collection)
    ensures CoverEffectOn(New, CollectionEffectOn(New, f, r)) == CollectionEffectOn(New, f, r)
  {
    var g := CollectionEffectOn(New, f, r);
    assert AlbumFollowsCover(g);
    if g.music && !JsBlank(g.cover) {
      assert g.(album := g.cover + "-a") == g;
    }
  }

  class Form {
    const mode: Mode
    var data: FormData
    var iframeInput: string
    var error: Option<FormError>

    /** The component opened or reset for a mode and a row: the initial form,
        the row's url in the iframe field when editing, and no error. */
    constructor (mode: Mode, video: Option<VideoRow>)
      ensures this.mode == mode && data == InitialFormData(mode, video) && error == None
      ensures iframeInput == if mode == Edit && data.url != "" then data.url else ""
    {
      this.mode := mode;
      var initial := InitialFormData(mode, video);
      data := initial;
      iframeInput := if mode == Edit && initial.url != "" then initial.url else "";
      error := None;
    }

    /** handleIframeChange: the field keeps what was typed and url becomes
        the extracted src; nothing else changes. */
    method IframeChanged(value: string)
      modifies this
      ensures iframeInput == value && data == old(data).(url := ExtractSrc(value))
      ensures error == old(error)
    {
      iframeInput := value;
      data := data.(url := ExtractSrc(value));
    }

    /** handleCollectionChange and selectCollection; r is Math.random(). In
        new mode a non-blank collection gets a fresh cover, and, with music
        on, the album that belongs to it. */
    method CollectionChanged(value: string, r: real)
      requires 0.0 <= r < 1.0
      modifies this
      ensures iframeInput == old(iframeInput) && error == old(error)
      ensures mode == Edit || JsBlank(value) ==> data == old(data).(collection := value)
      ensures mode == New && !JsBlank(value) && !old(data).music ==>
        data == old(data).(collection := value, cover := CoverName(value, r))
      ensures mode == New && !JsBlank(value) && old(data).music ==>
        data == old(data).(collection := value, cover := CoverName(value, r),
                           album := CoverName(value, r) + "-a")
    {
      var next := data.(collection := value);
      if mode == New && JsTrim(value) != "" {
        var cover := CoverName(value, r);
        next := next.(cover := cover);
        if next.music {
          next := next.(album := AlbumName(cover));
          AlbumOfGeneratedCover(value, r);
        }
      }
      data := next;
    }

    /** handleInputChange. A text field takes the typed value. The music
        checkbox sets music; unchecking it empties album; checking it in new
        mode with a non-blank cover sets album to cover followed by -a. */
    method InputChanged(event: InputEvent)
      modifies this
      ensures iframeInput == old(iframeInput) && error == old(error)
      ensures event.TextChange? ==> data == WithText(old(data), event.field, event.value)
      ensures event == MusicChange(false) ==> data == old(data).(music := false, album := "")
      ensures event == MusicChange(true) && mode == New && !JsBlank(old(data).cover) ==>
        data == old(data).(music := true, album := old(data).cover + "-a")
      ensures event == MusicChange(true) && (mode == Edit || JsBlank(old(data).cover)) ==>
        data == old(data).(music := true)
    {
      match event
      case TextChange(field, value) =>
        data := WithText(data, field, value);
      case MusicChange(checked) =>
        var next := data.(music := checked);
        if checked && mode == New && JsTrim(data.cover) != "" {
          next := next.(album := AlbumName(data.cover));
        }
        if !checked {
          next := next.(album := "");
        }
        data := next;
    }

    /** The effect that runs after the collection or the mode changed. */
    method CollectionEffect(r: real)
      requires 0.0 <= r < 1.0
      modifies this
      ensures iframeInput == old(iframeInput) && error == old(error)
      ensures data == CollectionEffectOn(mode, old(data), r)
    {
      data := CollectionEffectOn(mode, data, r);
    }

    /** The effect that runs after the cover or music changed. */
    method CoverEffect()
      modifies this
      ensures iframeInput == old(iframeInput) && error == old(error)
      ensures data == CoverEffectOn(mode, old(data))
    {
      data := CoverEffectOn(mode, data);
    }

    /** validateForm: accepts exactly when url, cover and collection are not
        blank; otherwise records the first failing field as the error. */
    method ValidateForm() returns (ok: bool)
      modifies this
      ensures data == old(data) && iframeInput == old(iframeInput)
      ensures ok <==> FirstFormError(data).None?
      ensures ok ==> error == old(error)
      ensures !ok ==> error == FirstFormError(data)
    {
      if JsTrim(data.url) == "" {
        error := Some(UrlRequired);
        return false;
      }
      if JsTrim(data.cover) == "" {
        error := Some(CoverRequired);
        return false;
      }
      if JsTrim(data.collection) == "" {
        error := Some(CollectionRequired);
        return false;
      }
      return true;
    }

    /** handleSubmit up to the request: None when validation fails, otherwise
        the body to send, with the error cleared. */
    method Submit() returns (body: Option<Input>)
      modifies this
      ensures data == old(data) && iframeInput == old(iframeInput)
      ensures body.None? <==> FirstFormError(data).Some?
      ensures body.None? ==> error == FirstFormError(data)
      ensures body.Some? ==> body.value == SubmitPayload(data) && error == None
    {
      var ok := ValidateForm();
      if !ok {
        return None;
      }
      error := None;
      body := Some(SubmitPayload(data));
    }
  }

  // ----- the cached collection list -----

  /** Cached lists are used for one hour, in milliseconds. */
  const CacheDuration: int := 60 * 60 * 1000

  /** The stored JSON { data, timestamp } of the key videokids_collections. */
  datatype CacheEntry = CacheEntry(data: seq<string>, timestamp: int)

  /** The list fetchCollections takes from the cache at time now, if any. */
  function CacheHit(stored: Option<CacheEntry>, now: int): (r: Option<seq<string>>)
    ensures r.Some? <==> stored.Some? && now - stored.value.timestamp < CacheDuration
    ensures r.Some? ==> r.value == stored.value.data
  {
    if stored.Some? && now - stored.value.timestamp < CacheDuration then Some(stored.value.data)
    else None
  }

  /** An entry stored at time t serves exactly the reads before t + 3600000. */
  lemma CacheLifetime(data: seq<string>, t: int, now: int)
    ensures CacheHit(Some(CacheEntry(data, t)), now).Some? <==> now < t + 3600000
  {
  }

  class CollectionsCache {
    var stored: Option<CacheEntry>

    /** The list holds each collection once, as get-collections.php returns
        it (its order is the database collation's). */
    ghost predicate Valid()
      reads this
    {
      stored.Some? ==> Distinct(stored.value.data)
    }

    constructor ()
      ensures Valid() && stored == None
    {
      stored := None;
    }

    /** fetchCollections. now and fetchedAt are the two readings of
        Date.now(); fetched is the list of a successful response, None when
        the request failed or did not succeed. A fresh cached list is used
        as it is; otherwise a fetched list is used and stored with its time. */
    method Fetch(now: int, fetched: Option<seq<string>>, fetchedAt: int) returns (collections: Option<seq<string>>)
      requires Valid()
      requires fetched.Some? ==> Distinct(fetched.value)
      modifies this
      ensures Valid()
      ensures CacheHit(old(stored), now).Some? ==>
        collections == CacheHit(old(stored), now) && stored == old(stored)
      ensures CacheHit(old(stored), now).None? && fetched.Some? ==>
        collections == fetched && stored == Some(CacheEntry(fetched.value, fetchedAt))
      ensures CacheHit(old(stored), now).None? && fetched.None? ==>
        collections == None && stored == old(stored)
    {
      if stored.Some? {
        var entry := stored.value;
        if now - entry.timestamp < CacheDuration {
          return Some(entry.data);
        }
      }
      if fetched.Some? {
        stored := Some(CacheEntry(fetched.value, fetchedAt));
      }
      collections := fetched;
    }

    /** refreshCollections removes the stored list before fetching again. */
    method Clear()
      modifies this
      ensures Valid() && stored == None
    {
      stored := None;
    }

    /** The cache update after a successful save: in new mode a collection
        the cached list lacks is added and the list sorted again, under the
        original timestamp; otherwise nothing changes. */
    method RecordSaved(mode: Mode, collection: string)
      requires Valid()
      modifies this
      ensures Valid()
      ensures old(stored).None? || mode == Edit ==> stored == old(stored)
      ensures old(stored).Some? && mode == New ==>
        var before := old(stored).value;
        && stored.Some? && stored.value.timestamp == before.timestamp
        && (forall c :: c in stored.value.data <==> c == collection || c in before.data)
        && (collection in before.data ==> stored == old(stored))
        && (collection !in before.data ==>
              && multiset(stored.value.data) == multiset(before.data) + multiset{collection}
              && StrictlyAscending(stored.value.data))
    {
      if stored.Some? && mode == New {
        var entry := stored.value;
        if collection !in entry.data {
          var updated := Sort(entry.data + [collection]);
          AppendNewKeepsDistinct(entry.data, collection);
          SortDistinctIsStrict(entry.data + [collection]);
          StrictIsDistinct(updated);
          forall c ensures c in updated <==> c == collection || c in entry.data {
            assert c in updated <==> c in multiset(updated);
            assert c in entry.data + [collection] <==> c in multiset(entry.data + [collection]);
          }
          stored := Some(CacheEntry(updated, entry.timestamp));
        }
      }
    }
  }

  lemma AppendNewKeepsDistinct(s: seq<string>, x: string)
    requires Distinct(s) && x !in s
    ensures Distinct(s + [x])
  {
    var t := s + [x];
    forall i, j | 0 <= i < j < |t| ensures t[i] != t[j] {
      if j == |s| {
        assert t[i] in s;
      }
    }
  }

  /** A strictly ascending list names each element once. */
  lemma StrictIsDistinct(s: seq<string>)
    requires StrictlyAscending(s)
    ensures Distinct(s)
  {
    forall i, j | 0 <= i < j < |s| ensures s[i] != s[j] {
      LessIrreflexive(s[i]);
    }
  }
}
