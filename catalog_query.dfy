/** The two catalog read endpoints: public/backend/get-videos.php (matching
    rows ordered by collection then id) and public/backend/get-collections.php
    (distinct non-empty collection names in ascending order). Both accept the
    optional query parameters language and music, check them, and bind them
    to a prepared statement. The statement's evaluation by MySQL is modelled
    by the Select methods below: a scan of the table that keeps the matching
    rows in ORDER BY order. */
module CatalogQuery {
  import opened Optional
  import opened PhpText
  import opened LexOrder
  import opened CatalogRules

  /** A value bound to a "?" of the prepared statement. */
  datatype Param = StrParam(s: string) | IntParam(i: int)

  datatype ParamError = BadLanguageParam | BadMusicParam

  /** The WHERE conditions: language = ? and music = ?, each when present. */
  datatype Filter = Filter(language: Option<string>, music: Option<int>)

  /** The statement's bindings: the bind_param type string and the values. */
  datatype Binding =
    | Bound(filter: Filter, types: string, params: seq<Param>)
    | Refused(error: ParamError)

  const QueryLanguages: set<string> := {"ES", "EN", "all"}

  const MusicSpellings: set<string> := {"true", "false", "1", "0"}

  /** An absent language is never refused; a given one only when it is
      none of ES, EN and all. */
  predicate LanguageRefused(language: Option<string>): (b: bool)
    ensures b ==> language.Some?
    ensures (language.None? || language == Some("ES") || language == Some("EN")
             || language == Some("all")) ==> !b
  {
    language.Some? && language.value !in QueryLanguages
  }

  /** in_array(strtolower($music), ['true', 'false', '1', '0']), compared
      strictly: an absent parameter is never refused, and an accepted one is
      one of the four spellings up to the case of its letters. */
  predicate MusicRefused(music: Option<string>): (b: bool)
    ensures b ==> music.Some?
    ensures !b && music.Some? ==> |music.value| == 1 || |music.value| == 4 || |music.value| == 5
    ensures music.Some? && Lower(music.value) == music.value ==>
      (b <==> music.value !in MusicSpellings)
  {
    music.Some? && Lower(music.value) !in MusicSpellings
  }

  /** (strtolower($music) === 'true' || $music === '1') ? 1 : 0 */
  function MusicFlag(p: string): (f: int)
    ensures f == 0 || f == 1
    ensures f == 1 ==> Lower(p) == "true" || Lower(p) == "1"
  {
    if Lower(p) == "true" then 1
    else if p == "1" then
      assert Lower(p)[0] == '1';
      1
    else 0
  }

  /** The filter that accepted parameters stand for; "all" filters nothing. */
  function FilterOf(language: Option<string>, music: Option<string>): Filter {
    Filter(
      if language.None? || language.value == "all" then None else language,
      if music.None? then None else Some(MusicFlag(music.value)))
  }

  predicate Matches(e: Entry, f: Filter) {
    && (f.language.None? || e.language == f.language.value)
    && (f.music.None? || e.music == f.music.value)
  }

  /** For an accepted spelling the flag is 1 exactly for "true" (in any case)
      and "1", and 0 exactly for "false" and "0". */
  lemma MusicFlagMeaning(p: string)
    requires Lower(p) in MusicSpellings
    ensures MusicFlag(p) == 1 <==> Lower(p) == "true" || Lower(p) == "1"
    ensures MusicFlag(p) == 0 <==> Lower(p) == "false" || Lower(p) == "0"
  {
    if Lower(p) == "1" {
      assert |p| == 1 && LowerChar(p[0]) == '1';
      assert p == [p[0]];
    }
  }

  /** A string PHP 8 takes for an integer numeric string: a run of digits
      between optional whitespace. */
  predicate DigitString(s: string) {
    var t := SkipNumericSpace(s);
    var d := DigitsPrefix(t, 0);
    d.1 >= 1 && forall i :: d.1 <= i < |t| ==> IsNumericSpace(t[i])
  }

  function DigitStringValue(s: string): nat {
    DigitsPrefix(SkipNumericSpace(s), 0).0
  }

  /** The music check as written: in_array without its strict flag compares
      with ==, and two numeric strings are equal when their numbers are, so
      any spelling of 0 or 1 passes. It refuses only what the strict check
      refuses. */
  predicate MusicRefusedAsWritten(music: Option<string>): (b: bool)
    ensures b ==> MusicRefused(music)
    ensures (music.Some? && DigitString(Lower(music.value))
             && DigitStringValue(Lower(music.value)) <= 1) ==> !b
  {
    && music.Some?
    && var p := Lower(music.value);
       !(p in MusicSpellings || (DigitString(p) && DigitStringValue(p) <= 1))
  }

  /** "01" passes the loose check as the number 1, yet the flag bound for it
      is 0: the request asks for music videos and gets the others. */
  lemma MusicLooseMatchExample()
    ensures !MusicRefusedAsWritten(Some("01")) && MusicRefused(Some("01"))
    ensures DigitStringValue("01") == 1 && MusicFlag("01") == 0
  {
    var p := "01";
    ExampleLower(p);
    ExampleDigits(p);
    assert |p| == 2;
  }

  lemma ExampleLower(p: string)
    requires p == "01"
    ensures Lower(p) == p
  {
    var l := Lower(p);
    assert l[0] == p[0] && l[1] == p[1];
  }

  lemma ExampleDigits(p: string)
    requires p == "01"
    ensures SkipNumericSpace(p) == p && DigitsPrefix(p, 0) == (1, 2)
  {
    NoSpaceToSkip(p);
    assert AllDigits(p);
    AllDigitsPrefix(p);
    ReadTwo(p);
  }

  /** The parameter checks and the appends to $types and $params shared by
      both endpoints. language is None when the endpoint has no language
      parameter to filter on. The language is checked before the music. */
  method BindFilters(language: Option<string>, music: Option<string>) returns (b: Binding)
    ensures b.Refused? <==> LanguageRefused(language) || MusicRefused(music)
    ensures b == Refused(BadLanguageParam) <==> LanguageRefused(language)
    ensures b.Bound? ==> b.filter == FilterOf(language, music)
    ensures b.Bound? ==> (|b.types| == |b.params|
      && (forall i :: 0 <= i < |b.types| ==>
            (b.types[i] == 's' && b.params[i].StrParam?) || (b.types[i] == 'i' && b.params[i].IntParam?)))
    ensures b.Bound? ==> (b.params ==
      (if b.filter.language.Some? then [StrParam(b.filter.language.value)] else [])
      + (if b.filter.music.Some? then [IntParam(b.filter.music.value)] else []))
  {
    var types := "";
    var params: seq<Param> := [];
    if language.Some? {
      if language.value !in QueryLanguages {
        return Refused(BadLanguageParam);
      }
      if language.value != "all" {
        types := types + "s";
        params := params + [StrParam(language.value)];
      }
    }
    if music.Some? {
      if Lower(music.value) !in MusicSpellings {
        return Refused(BadMusicParam);
      }
      types := types + "i";
      params := params + [IntParam(MusicFlag(music.value))];
    }
    b := Bound(FilterOf(language, music), types, params);
  }

  // ----- get-videos.php -----

  /** A row as the database returns it. */
  datatype Row = Row(id: int, entry: Entry)

  /** A row as get-videos.php returns it, music turned into a boolean. */
  datatype VideoRow = VideoRow(id: int, data: Echo)

  /** ORDER BY collection, id */
  predicate KeyBefore(c1: string, id1: int, c2: string, id2: int) {
    Less(c1, c2) || (c1 == c2 && id1 < id2)
  }

  predicate RowsOrdered(s: seq<Row>) {
    forall i, j :: 0 <= i < j < |s| ==>
      KeyBefore(s[i].entry.collection, s[i].id, s[j].entry.collection, s[j].id)
  }

  predicate VideosOrdered(s: seq<VideoRow>) {
    forall i, j :: 0 <= i < j < |s| ==>
      KeyBefore(s[i].data.collection, s[i].id, s[j].data.collection, s[j].id)
  }

  lemma KeyBeforeTransitive(c1: string, i1: int, c2: string, i2: int, c3: string, i3: int)
    requires KeyBefore(c1, i1, c2, i2) && KeyBefore(c2, i2, c3, i3)
    ensures KeyBefore(c1, i1, c3, i3)
  {
    if Less(c1, c2) && Less(c2, c3) { LessTransitive(c1, c2, c3); }
  }

  lemma KeyBeforeAsymmetric(c1: string, i1: int, c2: string, i2: int)
    requires KeyBefore(c1, i1, c2, i2)
    ensures !KeyBefore(c2, i2, c1, i1)
  {
    if Less(c1, c2) { LessAsymmetric(c1, c2); } else { LessIrreflexive(c1); }
  }

  lemma KeyBeforeTotal(c1: string, i1: int, c2: string, i2: int)
    requires i1 != i2
    ensures KeyBefore(c1, i1, c2, i2) || KeyBefore(c2, i2, c1, i1)
  {
    LessTotal(c1, c2);
  }

  lemma RowsCons(h: Row, t: seq<Row>)
    requires RowsOrdered(t)
    requires forall j :: 0 <= j < |t| ==> KeyBefore(h.entry.collection, h.id, t[j].entry.collection, t[j].id)
    ensures RowsOrdered([h] + t)
  {
    var r := [h] + t;
    forall i, j | 0 <= i < j < |r|
      ensures KeyBefore(r[i].entry.collection, r[i].id, r[j].entry.collection, r[j].id)
    {
      if i == 0 { assert r[j] == t[j - 1]; } else { assert r[i] == t[i - 1] && r[j] == t[j - 1]; }
    }
  }

  /** Places a row with a new id into an ordered result. */
  function InsertRow(x: Row, s: seq<Row>): (r: seq<Row>)
    requires RowsOrdered(s)
    requires forall i :: 0 <= i < |s| ==> s[i].id != x.id
    ensures RowsOrdered(r)
    ensures |r| == |s| + 1
    ensures forall y :: y in r <==> y == x || y in s
    decreases |s|
  {
    if s == [] then [x]
    else if KeyBefore(x.entry.collection, x.id, s[0].entry.collection, s[0].id) then
      assert forall j :: 0 <= j < |s| ==>
        KeyBefore(x.entry.collection, x.id, s[j].entry.collection, s[j].id) by {
        forall j | 0 <= j < |s|
          ensures KeyBefore(x.entry.collection, x.id, s[j].entry.collection, s[j].id)
        {
          if j > 0 {
            KeyBeforeTransitive(x.entry.collection, x.id, s[0].entry.collection, s[0].id,
                                s[j].entry.collection, s[j].id);
          }
        }
      }
      RowsCons(x, s);
      [x] + s
    else
      var t := InsertRow(x, s[1..]);
      KeyBeforeTotal(x.entry.collection, x.id, s[0].entry.collection, s[0].id);
      assert forall j :: 0 <= j < |t| ==>
        KeyBefore(s[0].entry.collection, s[0].id, t[j].entry.collection, t[j].id) by {
        forall j | 0 <= j < |t|
          ensures KeyBefore(s[0].entry.collection, s[0].id, t[j].entry.collection, t[j].id)
        {
          assert t[j] in t;
          if t[j] != x {
            var k :| 0 <= k < |s[1..]| && s[1..][k] == t[j];
            assert s[k + 1] == t[j];
          }
        }
      }
      RowsCons(s[0], t);
      assert forall y :: y in s <==> y == s[0] || y in s[1..] by {
        assert s == [s[0]] + s[1..];
      }
      [s[0]] + t
  }

  /** The SELECT ... WHERE ... ORDER BY collection, id: every row of the table
      that matches, each once, in order. */
  method SelectRows(table: map<int, Entry>, f: Filter) returns (selected: seq<Row>)
    ensures RowsOrdered(selected)
    ensures forall x :: x in selected <==> x.id in table && x.entry == table[x.id] && Matches(x.entry, f)
  {
    var pending := table.Keys;
    selected := [];
    while pending != {}
      invariant pending <= table.Keys
      invariant RowsOrdered(selected)
      invariant forall x :: x in selected <==>
        x.id in table && x.id !in pending && x.entry == table[x.id] && Matches(x.entry, f)
      decreases pending
    {
      assert exists k :: k in pending by { MemberOfNonEmpty(pending); }
      var id :| id in pending;
      if Matches(table[id], f) {
        assert forall i :: 0 <= i < |selected| ==> selected[i].id != id by {
          forall i | 0 <= i < |selected| ensures selected[i].id != id {
            assert selected[i] in selected;
          }
        }
        selected := InsertRow(Row(id, table[id]), selected);
      }
      pending := pending - {id};
    }
  }

  lemma MemberOfNonEmpty(s: set<int>)
    requires s != {}
    ensures exists k :: k in s
  {
    if forall k :: k !in s {
      assert false;
    }
  }

  datatype MusicShown = AnyMusic | MusicIs(flag: bool)

  /** The "filters" object: music shows (bool)$music_bool, or 'all'. */
  function ShowMusic(music: Option<string>): MusicShown {
    if music.None? then AnyMusic else MusicIs(MusicFlag(music.value) == 1)
  }

  datatype VideosReply =
    | Videos(count: nat, language: string, music: MusicShown, videos: seq<VideoRow>)
    | VideosRefused(error: ParamError)

  /** get-videos.php. language defaults to "all"; a refused parameter gives
      an error and no rows; otherwise every matching row is returned, once,
      ordered by collection then id, with music as a boolean, and count is
      the number of rows. */
  method GetVideos(table: map<int, Entry>, language: Option<string>, music: Option<string>)
    returns (reply: VideosReply)
    ensures var lang := if language.Some? then language.value else "all";
      && (reply.VideosRefused? <==> LanguageRefused(Some(lang)) || MusicRefused(music))
      && (reply == VideosRefused(BadLanguageParam) <==> LanguageRefused(Some(lang)))
      && (reply.Videos? ==>
            && reply.count == |reply.videos|
            && reply.language == lang
            && reply.music == ShowMusic(music)
            && VideosOrdered(reply.videos)
            && (forall v :: v in reply.videos <==>
                  v.id in table && v.data == Shown(table[v.id])
                  && Matches(table[v.id], FilterOf(Some(lang), music))))
  {
    var lang := if language.Some? then language.value else "all";
    var b := BindFilters(Some(lang), music);
    if b.Refused? {
      return VideosRefused(b.error);
    }
    var selected := SelectRows(table, b.filter);
    var videos := ShowRows(selected);
    ShownRowsMatch(table, b.filter, selected, videos);
    reply := Videos(|videos|, lang, ShowMusic(music), videos);
  }

  /** The fetch loop: each row as returned, music turned into a boolean. */
  method ShowRows(selected: seq<Row>) returns (videos: seq<VideoRow>)
    ensures |videos| == |selected|
    ensures forall j :: 0 <= j < |selected| ==>
      videos[j] == VideoRow(selected[j].id, Shown(selected[j].entry))
  {
    videos := [];
    var count := 0;
    while count < |selected|
      invariant count <= |selected| && |videos| == count
      invariant forall j :: 0 <= j < count ==>
        videos[j] == VideoRow(selected[j].id, Shown(selected[j].entry))
    {
      videos := videos + [VideoRow(selected[count].id, Shown(selected[count].entry))];
      count := count + 1;
    }
  }

  /** Showing the selected rows one by one keeps their order, and gives
      exactly the matching rows of the table. */
  lemma ShownRowsMatch(table: map<int, Entry>, f: Filter, selected: seq<Row>, videos: seq<VideoRow>)
    requires RowsOrdered(selected)
    requires forall x :: x in selected <==> x.id in table && x.entry == table[x.id] && Matches(x.entry, f)
    requires |videos| == |selected|
    requires forall j :: 0 <= j < |selected| ==>
      videos[j] == VideoRow(selected[j].id, Shown(selected[j].entry))
    ensures VideosOrdered(videos)
    ensures forall v :: v in videos <==>
      v.id in table && v.data == Shown(table[v.id]) && Matches(table[v.id], f)
  {
    forall v | v in videos ensures v.id in table && v.data == Shown(table[v.id])
      && Matches(table[v.id], f)
    {
      var j :| 0 <= j < |videos| && videos[j] == v;
      assert selected[j] in selected;
    }
    forall id | id in table && Matches(table[id], f)
      ensures VideoRow(id, Shown(table[id])) in videos
    {
      assert Row(id, table[id]) in selected;
      var j :| 0 <= j < |selected| && selected[j] == Row(id, table[id]);
      assert videos[j] == VideoRow(id, Shown(table[id]));
    }
  }

  lemma VideosCons(h: VideoRow, t: seq<VideoRow>)
    requires VideosOrdered([h] + t)
    ensures VideosOrdered(t)
    ensures forall j :: 0 <= j < |t| ==> KeyBefore(h.data.collection, h.id, t[j].data.collection, t[j].id)
  {
    var r := [h] + t;
    assert r[0] == h;
    forall j | 0 <= j < |t| ensures KeyBefore(h.data.collection, h.id, t[j].data.collection, t[j].id) {
      assert r[j + 1] == t[j];
    }
    forall i, j | 0 <= i < j < |t| ensures KeyBefore(t[i].data.collection, t[i].id, t[j].data.collection, t[j].id) {
      assert r[i + 1] == t[i] && r[j + 1] == t[j];
    }
  }

  /** The ordering leaves no freedom: two ordered lists holding the same rows
      are the same list, so get-videos.php's reply is fixed by the table and
      the parameters. */
  lemma {:induction false} VideosOrderedUnique(a: seq<VideoRow>, b: seq<VideoRow>)
    requires VideosOrdered(a) && VideosOrdered(b)
    requires forall v :: v in a <==> v in b
    ensures a == b
    decreases |a|
  {
    if a == [] {
      if b != [] {
        VideoHeadIsMember(b);
        assert false;
      }
    } else {
      assert a[0] in b;
      assert b[0] in a;
      assert a == [a[0]] + a[1..] && b == [b[0]] + b[1..];
      VideosCons(a[0], a[1..]);
      VideosCons(b[0], b[1..]);
      if a[0] != b[0] {
        var i :| 1 <= i < |a| && a[i] == b[0];
        var j :| 1 <= j < |b| && b[j] == a[0];
        KeyBeforeAsymmetric(a[0].data.collection, a[0].id, a[i].data.collection, a[i].id);
      }
      forall v ensures v in a[1..] <==> v in b[1..] {
        if v in a[1..] {
          var i :| 1 <= i < |a| && a[i] == v;
          assert KeyBefore(a[0].data.collection, a[0].id, v.data.collection, v.id);
          KeyBeforeAsymmetric(a[0].data.collection, a[0].id, v.data.collection, v.id);
          assert v in b;
        }
        if v in b[1..] {
          var j :| 1 <= j < |b| && b[j] == v;
          assert KeyBefore(b[0].data.collection, b[0].id, v.data.collection, v.id);
          KeyBeforeAsymmetric(b[0].data.collection, b[0].id, v.data.collection, v.id);
          assert v in a;
        }
      }
      VideosOrderedUnique(a[1..], b[1..]);
    }
  }

  lemma VideoHeadIsMember(b: seq<VideoRow>)
    requires b != []
    ensures b[0] in b
  {
  }

  // ----- get-collections.php -----

  /** The collection names of the matching rows among ids, without "". */
  function CollectionsAmong(table: map<int, Entry>, f: Filter, ids: set<int>): set<string>
  {
    set id | id in ids && id in table && Matches(table[id], f) && table[id].collection != ""
      :: table[id].collection
  }

  /** The SELECT DISTINCT collection ... WHERE collection != '' ... ORDER BY
      collection ASC: each non-empty collection of a matching row, once, in
      ascending order. */
  method SelectCollections(table: map<int, Entry>, f: Filter) returns (names: seq<string>)
    ensures StrictlyAscending(names)
    ensures forall c :: c in names <==> c in CollectionsAmong(table, f, table.Keys)
  {
    var pending := table.Keys;
    names := [];
    while pending != {}
      invariant pending <= table.Keys
      invariant StrictlyAscending(names)
      invariant forall c :: c in names <==> c in CollectionsAmong(table, f, table.Keys - pending)
      decreases pending
    {
      assert exists k :: k in pending by { MemberOfNonEmpty(pending); }
      var id :| id in pending;
      var c := table[id].collection;
      ghost var before := CollectionsAmong(table, f, table.Keys - pending);
      ghost var after := CollectionsAmong(table, f, table.Keys - (pending - {id}));
      if Matches(table[id], f) && c != "" && c !in names {
        InsertKeepsStrict(c, names);
        InsertMembers(c, names);
        names := Insert(c, names);
        assert after == before + {c};
      } else {
        assert after == before || (c in names && after == before + {c});
      }
      pending := pending - {id};
    }
  }

  datatype FiltersShown = FiltersShown(language: string, music: MusicShown)

  datatype CollectionsReply =
    | Collections(count: nat, timestamp: int, collections: seq<string>, filters: Option<FiltersShown>)
    | CollectionsRefused(error: ParamError)

  /** get-collections.php. now is time(). Both parameters are optional and
      "all" filters nothing. A refused parameter gives an error, the language
      one first. Otherwise the names are non-empty, pairwise different and
      ascending, and are exactly those of the matching rows; count is their
      number; "filters" is present exactly when a parameter was given. */
  method GetCollections(table: map<int, Entry>, language: Option<string>, music: Option<string>, now: int)
    returns (reply: CollectionsReply)
    ensures reply.CollectionsRefused? <==> LanguageRefused(language) || MusicRefused(music)
    ensures reply == CollectionsRefused(BadLanguageParam) <==> LanguageRefused(language)
    ensures reply.Collections? ==>
      && reply.count == |reply.collections|
      && reply.timestamp == now
      && StrictlyAscending(reply.collections)
      && (forall i :: 0 <= i < |reply.collections| ==> reply.collections[i] != "")
      && (forall c :: c in reply.collections <==>
            c in CollectionsAmong(table, FilterOf(language, music), table.Keys))
      && (reply.filters.Some? <==> language.Some? || music.Some?)
      && (reply.filters.Some? ==> (reply.filters.value ==
            FiltersShown(if language.Some? then language.value else "all", ShowMusic(music))))
  {
    var b := BindFilters(language, music);
    if b.Refused? {
      return CollectionsRefused(b.error);
    }
    var names := SelectCollections(table, b.filter);
    var collections: seq<string> := [];
    var count := 0;
    while count < |names|
      invariant count <= |names| && collections == names[..count]
    {
      collections := collections + [names[count]];
      count := count + 1;
    }
    assert collections == names;
    forall i | 0 <= i < |collections| ensures collections[i] != "" {
      assert collections[i] in names;
    }
    var filters: Option<FiltersShown> := None;
    if language.Some? || music.Some? {
      filters := Some(FiltersShown(if language.Some? then language.value else "all", ShowMusic(music)));
    }
    reply := Collections(count, now, collections, filters);
  }
}
