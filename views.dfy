/**
 * PlayViewSet: the play endpoint's search. The query string's title,
 * genres and actors parameters become filters over the play catalogue;
 * genres and actors are comma-separated id lists (?genres=2,5).
 */
module PlayViewSet {
  import opened Wrappers
  import opened Text
  import opened PyInt
  import opened QuerySet

  /** The ValueError int() raises, with the piece of the list it could not read. */
  datatype ValueError = InvalidLiteral(piece: string)

  /** [int(piece) for piece in pieces]: stops at the first piece that is not an integer. */
  function ParseEach(pieces: seq<string>): (r: Result<seq<int>, ValueError>)
    ensures r.Success? ==> forall i :: 0 <= i < |pieces| ==> ParseInt(pieces[i]).Some?
    ensures (forall i :: 0 <= i < |pieces| ==> ParseInt(pieces[i]).Some?) ==> r.Success?
    ensures r.Success? ==> |r.value| == |pieces|
    ensures r.Success? ==> forall i :: 0 <= i < |pieces| ==> ParseInt(pieces[i]) == Some(r.value[i])
    ensures r.Failure? ==>
      exists k :: 0 <= k < |pieces| && r.error == InvalidLiteral(pieces[k]) && ParseInt(pieces[k]).None?
        && forall j :: 0 <= j < k ==> ParseInt(pieces[j]).Some?
  {
    if pieces == [] then Success([])
    else
      match ParseInt(pieces[0])
      case None => Failure(InvalidLiteral(pieces[0]))
      case Some(n) =>
        var rest := ParseEach(pieces[1..]);
        if rest.Failure? then
          var k :| 0 <= k < |pieces| - 1 && rest.error == InvalidLiteral(pieces[1..][k])
            && ParseInt(pieces[1..][k]).None? && forall j :: 0 <= j < k ==> ParseInt(pieces[1..][j]).Some?;
          assert pieces[k + 1] == pieces[1..][k];
          assert forall j :: 0 < j < k + 1 ==> pieces[j] == pieces[1..][j - 1];
          Failure(rest.error)
        else
          Success([n] + rest.value)
  }

  /**
   * _params_to_ints(qs): one integer per comma-separated piece, in order, or
   * the ValueError of the first piece that is not an integer.
   */
  function ParamsToInts(qs: string): (r: Result<seq<int>, ValueError>)
    ensures r.Success? ==> forall i :: 0 <= i < |Split(qs, ',')| ==> ParseInt(Split(qs, ',')[i]).Some?
    ensures (forall i :: 0 <= i < |Split(qs, ',')| ==> ParseInt(Split(qs, ',')[i]).Some?) ==> r.Success?
    ensures r.Success? ==> |r.value| == Count(qs, ',') + 1
    ensures r.Success? ==> forall i :: 0 <= i < |r.value| ==> ParseInt(Split(qs, ',')[i]) == Some(r.value[i])
    ensures r.Failure? ==>
      exists k :: 0 <= k < |Split(qs, ',')| && r.error == InvalidLiteral(Split(qs, ',')[k])
        && ParseInt(Split(qs, ',')[k]).None? && forall j :: 0 <= j < k ==> ParseInt(Split(qs, ',')[j]).Some?
  {
    ParseEach(Split(qs, ','))
  }

  /** str(n) of each integer. */
  function RenderAll(ids: seq<int>): seq<string> {
    seq(|ids|, i requires 0 <= i < |ids| => Render(ids[i]))
  }

  /** Round trip: a non-empty list of ids written as "2,5" reads back as the same ids in the same order. */
  lemma ParamsToIntsRoundTrip(ids: seq<int>)
    requires |ids| > 0
    ensures ParamsToInts(Join(RenderAll(ids), ',')) == Success(ids)
  {
    var texts := RenderAll(ids);
    SplitJoin(texts, ',');
    forall i | 0 <= i < |ids|
      ensures ParseInt(texts[i]) == Some(ids[i])
    {
      ParseRender(ids[i]);
    }
    var r := ParamsToInts(Join(texts, ','));
    assert r.value == ids;
  }

  /** An empty piece is not an integer, so the whole list fails. */
  lemma EmptyPieceFails(qs: string, k: int)
    requires 0 <= k < |Split(qs, ',')| && Split(qs, ',')[k] == ""
    ensures ParamsToInts(qs).Failure?
  {
    ParseBlank("");
  }

  /** "1,,2", a trailing comma, a leading comma and "" itself all fail as a whole: no partial list. */
  lemma ParamsToIntsRejectsEmptyPieces(a: string, b: string)
    ensures ParamsToInts(a + ",," + b).Failure?
    ensures ParamsToInts(a + ",").Failure?
    ensures ParamsToInts("," + b).Failure?
    ensures ParamsToInts("").Failure?
  {
    var A, B := Split(a, ','), Split(b, ',');
    SplitAround(a, ',', "," + b);
    assert a + ",," + b == a + [','] + ("," + b);
    SplitAround([], ',', b);
    assert [] + [','] + b == "," + b;
    assert Split([], ',') == [""];
    EmptyPieceFails(a + ",," + b, |A|);
    SplitAround(a, ',', []);
    assert a + [','] + [] == a + ",";
    EmptyPieceFails(a + ",", |A|);
    EmptyPieceFails("," + b, 0);
    EmptyPieceFails("", 0);
  }

  /** The three query-string parameters; None when absent. */
  datatype QueryParams = QueryParams(title: Option<string>, genres: Option<string>, actors: Option<string>)

  /** Python truthiness of query_params.get(name): present and not empty. */
  function Given(param: Option<string>): (given: bool)
    ensures !given <==> param == None || param == Some("")
  {
    param.Some? && param.value != ""
  }

  /**
   * get_queryset(): narrow the catalogue by title, then by genres, then by
   * actors, each only when its parameter is given, and drop duplicate rows.
   * Reading a bad id list raises, and no rows come back.
   */
  function GetQueryset(catalogue: seq<Play>, params: QueryParams): (r: Result<seq<Play>, ValueError>)
    ensures r.Success? ==> NoDuplicates(r.value)
    ensures r.Success? ==> forall p :: p in r.value ==> p in catalogue
    ensures r.Success? ==> Given(params.title) ==> forall p :: p in r.value ==> IContains(p.title, params.title.value)
  {
    var queryset := catalogue;
    var queryset :=
      if Given(params.title) then Filter(queryset, TitleIContains(params.title.value)) else queryset;
    var queryset :-
      if Given(params.genres) then
        var genresIds :- ParamsToInts(params.genres.value);
        Success(Filter(queryset, RelatedIdIn(Genres, genresIds)))
      else Success(queryset);
    var queryset :-
      if Given(params.actors) then
        var actorsIds :- ParamsToInts(params.actors.value);
        Success(Filter(queryset, RelatedIdIn(Actors, actorsIds)))
      else Success(queryset);
    Success(Distinct(queryset))
  }

  /** The id lookup for one list parameter: none when it is not given. */
  function IdLookup(param: Option<string>, rel: Relation): Result<seq<Lookup>, ValueError> {
    if Given(param) then
      var ids :- ParamsToInts(param.value);
      Success([RelatedIdIn(rel, ids)])
    else Success([])
  }

  /** The lookups the parameters ask for, in the order get_queryset applies them. */
  function Lookups(params: QueryParams): Result<seq<Lookup>, ValueError> {
    var byTitle := if Given(params.title) then [TitleIContains(params.title.value)] else [];
    var byGenres :- IdLookup(params.genres, Genres);
    var byActors :- IdLookup(params.actors, Actors);
    Success(byTitle + byGenres + byActors)
  }

  /**
   * What the search promises of one play: its title contains the title
   * parameter ignoring case, it has one of the listed genres and one of the
   * listed actors, each only when that parameter is given.
   */
  predicate Satisfies(p: Play, params: QueryParams) {
    && (Given(params.title) ==> IContains(p.title, params.title.value))
    && (Given(params.genres) ==>
          ParamsToInts(params.genres.value).Success?
          && exists g :: g in ParamsToInts(params.genres.value).value && g in p.genreIds)
    && (Given(params.actors) ==>
          ParamsToInts(params.actors.value).Success?
          && exists a :: a in ParamsToInts(params.actors.value).value && a in p.actorIds)
  }

  /** get_queryset is the chain of filter() calls for its lookups, then distinct(); it raises exactly when they cannot be built. */
  lemma GetQuerysetIsFilterChain(catalogue: seq<Play>, params: QueryParams)
    ensures Lookups(params).Failure? ==> GetQueryset(catalogue, params) == Failure(Lookups(params).error)
    ensures Lookups(params).Success? ==>
      GetQueryset(catalogue, params) == Success(Distinct(FilterAll(catalogue, Lookups(params).value)))
  {
    var t := if Given(params.title) then [TitleIContains(params.title.value)] else [];
    var g, a := IdLookup(params.genres, Genres), IdLookup(params.actors, Actors);
    if g.Success? && a.Success? {
      FilterAllAppend(catalogue, t + g.value, a.value);
      FilterAllAppend(catalogue, t, g.value);
      var rows := catalogue;
      assert FilterAll(rows, []) == rows;
      assert forall l :: FilterAll(rows, [l]) == Filter(rows, l);
      var afterTitle := FilterAll(rows, t);
      assert forall l :: FilterAll(afterTitle, [l]) == Filter(afterTitle, l);
      assert FilterAll(afterTitle, []) == afterTitle;
      var afterGenres := FilterAll(afterTitle, g.value);
      assert forall l :: FilterAll(afterGenres, [l]) == Filter(afterGenres, l);
      assert FilterAll(afterGenres, []) == afterGenres;
    }
  }

  /** Matching the id lookup of a list parameter means having one of the listed ids. */
  lemma IdLookupMeaning(p: Play, param: Option<string>, rel: Relation)
    requires IdLookup(param, rel).Success?
    ensures MatchesAll(p, IdLookup(param, rel).value) <==>
      (Given(param) ==> exists i :: i in ParamsToInts(param.value).value && i in Related(p, rel))
  {
    if Given(param) {
      var ids := ParamsToInts(param.value).value;
      var l := RelatedIdIn(rel, ids);
      MatchesRelated(p, rel, ids);
      assert IdLookup(param, rel).value == [l];
      MatchesAllSingle(p, l);
    } else {
      assert IdLookup(param, rel).value == [];
    }
  }

  /** Matching every lookup means satisfying the search. */
  lemma LookupsMeaning(p: Play, params: QueryParams)
    requires Lookups(params).Success?
    ensures MatchesAll(p, Lookups(params).value) <==> Satisfies(p, params)
  {
    var t := if Given(params.title) then [TitleIContains(params.title.value)] else [];
    var g, a := IdLookup(params.genres, Genres).value, IdLookup(params.actors, Actors).value;
    assert Lookups(params).value == t + g + a;
    MatchesAllAppend(p, t + g, a);
    MatchesAllAppend(p, t, g);
    IdLookupMeaning(p, params.genres, Genres);
    IdLookupMeaning(p, params.actors, Actors);
    assert MatchesAll(p, t) <==> (Given(params.title) ==> IContains(p.title, params.title.value)) by {
      if Given(params.title) { assert t[0] == TitleIContains(params.title.value); }
    }
  }

  /**
   * The search contract: on success, a play is returned iff it is in the
   * catalogue and satisfies every given filter; no play comes back twice,
   * even when it has several of the listed genres or actors; and for a
   * catalogue of distinct rows the result keeps catalogue order.
   */
  lemma GetQuerysetExact(catalogue: seq<Play>, params: QueryParams)
    requires GetQueryset(catalogue, params).Success?
    ensures var r := GetQueryset(catalogue, params).value;
      && NoDuplicates(r)
      && (forall p :: p in r <==> p in catalogue && Satisfies(p, params))
      && (NoDuplicates(catalogue) ==> r == Where(catalogue, Lookups(params).value))
  {
    GetQuerysetIsFilterChain(catalogue, params);
    var ls := Lookups(params).value;
    DistinctFilterAll(catalogue, ls, {});
    forall p
      ensures p in GetQueryset(catalogue, params).value <==> p in catalogue && Satisfies(p, params)
    {
      LookupsMeaning(p, params);
    }
    if NoDuplicates(catalogue) {
      FilterAllDistinct(catalogue, ls);
    }
  }

  /** get_queryset raises exactly when a given genres or actors list is not a list of integers; genres are read first. */
  lemma GetQuerysetFailure(catalogue: seq<Play>, params: QueryParams)
    ensures Given(params.genres) && ParamsToInts(params.genres.value).Failure? ==>
      GetQueryset(catalogue, params) == Failure(ParamsToInts(params.genres.value).error)
    ensures ((!Given(params.genres) || ParamsToInts(params.genres.value).Success?)
             && Given(params.actors) && ParamsToInts(params.actors.value).Failure?) ==>
      GetQueryset(catalogue, params) == Failure(ParamsToInts(params.actors.value).error)
    ensures ((!Given(params.genres) || ParamsToInts(params.genres.value).Success?)
             && (!Given(params.actors) || ParamsToInts(params.actors.value).Success?)) ==>
      GetQueryset(catalogue, params).Success?
  {
  }

  /** A parameter given as the empty string is skipped, just as an absent one. */
  lemma EmptyParamIsSkipped(catalogue: seq<Play>, params: QueryParams)
    ensures GetQueryset(catalogue, params.(title := Some(""))) == GetQueryset(catalogue, params.(title := None))
    ensures GetQueryset(catalogue, params.(genres := Some(""))) == GetQueryset(catalogue, params.(genres := None))
    ensures GetQueryset(catalogue, params.(actors := Some(""))) == GetQueryset(catalogue, params.(actors := None))
  {
  }

  /** With no filter given, the whole catalogue comes back, once per play and in order. */
  lemma NoFilterReturnsCatalogue(catalogue: seq<Play>, params: QueryParams)
    requires !Given(params.title) && !Given(params.genres) && !Given(params.actors)
    requires NoDuplicates(catalogue)
    ensures GetQueryset(catalogue, params) == Success(catalogue)
  {
    GetQuerysetIsFilterChain(catalogue, params);
    assert Lookups(params) == Success([]);
    WhereNothing(catalogue);
    FilterAllDistinct(catalogue, []);
  }

  /** The serializers of the play endpoint. */
  datatype SerializerClass = PlaySerializer | PlayListSerializer | PlayDetailSerializer

  /** get_serializer_class(): list and retrieve have their own serializers; every other action uses the base one. */
  function GetSerializerClass(action: Option<string>): (c: SerializerClass)
    ensures c == PlayListSerializer <==> action == Some("list")
    ensures c == PlayDetailSerializer <==> action == Some("retrieve")
    ensures c == PlaySerializer <==> action != Some("list") && action != Some("retrieve")
  {
    if action == Some("list") then PlayListSerializer
    else if action == Some("retrieve") then PlayDetailSerializer
    else PlaySerializer
  }
}
