/** The article list: which endpoint a fetch calls, the loading and error flags around it,
    the list after a delete, and which of the four views is rendered. */
module ArticleList {

  import opened Wrappers
  import opened Js
  import Text
  import opened ArticleCard

  // ---------------------------------------------------------------- query dispatch

  datatype Endpoint = SearchFor(q: string) | ListAll

  /** `searchQuery && searchQuery.trim() !== ''` picks the search endpoint, which is sent the
      query untrimmed. */
  function Dispatch(searchQuery: JsStr): (e: Endpoint)
    ensures e.SearchFor? ==> searchQuery == Str(e.q)
  {
    if Truthy(searchQuery) && Js.Trim(searchQuery.s) != "" then SearchFor(searchQuery.s) else ListAll
  }

  /** The search endpoint is called exactly when the query holds a character that is not
      JavaScript white space. */
  lemma DispatchSearchesIffNonBlank(searchQuery: JsStr)
    ensures Dispatch(searchQuery).SearchFor? <==>
      searchQuery.Str? && exists i :: 0 <= i < |searchQuery.s| && !IsJsSpace(searchQuery.s[i])
  {
    if searchQuery.Str? {
      Text.TrimEmptyIffAllSpace(searchQuery.s, IsJsSpace);
    }
  }

  // ---------------------------------------------------------------- delete filter

  /** `articles.filter(a => a.id !== id)`. */
  function RemoveId(articles: seq<CardArticle>, id: nat): (r: seq<CardArticle>)
    ensures |r| <= |articles|
    ensures forall a :: a in r <==> a in articles && a.id != id
  {
    if articles == [] then []
    else (if articles[0].id == id then [] else [articles[0]]) + RemoveId(articles[1..], id)
  }

  /** Filtering works piece by piece, so the kept entries stay in their order. */
  lemma {:induction false} RemoveIdAppend(s: seq<CardArticle>, t: seq<CardArticle>, id: nat)
    ensures RemoveId(s + t, id) == RemoveId(s, id) + RemoveId(t, id)
  {
    if s == [] {
      assert s + t == t;
    } else {
      assert (s + t)[0] == s[0] && (s + t)[1..] == s[1..] + t;
      RemoveIdAppend(s[1..], t, id);
    }
  }

  /** Nothing is removed when no entry has the id. */
  lemma {:induction false} RemoveIdAbsent(s: seq<CardArticle>, id: nat)
    requires forall i :: 0 <= i < |s| ==> s[i].id != id
    ensures RemoveId(s, id) == s
  {
    if s != [] {
      assert forall i :: 0 <= i < |s| - 1 ==> s[1..][i] == s[i + 1];
      RemoveIdAbsent(s[1..], id);
      assert s == [s[0]] + s[1..];
    }
  }

  /** Deleting the same id again changes nothing. */
  lemma RemoveIdIdempotent(s: seq<CardArticle>, id: nat)
    ensures RemoveId(RemoveId(s, id), id) == RemoveId(s, id)
  {
    var r := RemoveId(s, id);
    assert forall i :: 0 <= i < |r| ==> r[i] in r;
    RemoveIdAbsent(r, id);
  }

  // ---------------------------------------------------------------- list state

  const FetchError := "Erreur lors du chargement des articles"

  /** The four views, checked in this order. */
  datatype View = Loading | Error(message: string) | Empty | Listed(count: nat, cards: seq<CardArticle>)

  class ListState {
    var articles: seq<CardArticle>
    var loading: bool
    var error: Option<string>

    /** The only message `error` ever holds. */
    ghost predicate Valid()
      reads this
    {
      error.None? || error.value == FetchError
    }

    /** Mounting: empty and loading, until the first fetch (started by the mount effect)
        settles. */
    constructor()
      ensures Valid()
      ensures articles == [] && loading && error.None?
    {
      articles := [];
      loading := true;
      error := None;
    }

    function CurrentView(): (v: View)
      reads this
      ensures v.Loading? <==> loading
      ensures v.Error? <==> !loading && error.Some?
      ensures v.Error? ==> v.message == error.value
      ensures v.Empty? <==> !loading && error.None? && articles == []
      ensures v.Listed? ==> v.count == |articles| && v.cards == articles && articles != []
    {
      if loading then Loading
      else if error.Some? then Error(error.value)
      else if |articles| == 0 then Empty
      else Listed(|articles|, articles)
    }

    /** The part of `fetchArticles` before the request settles: loading, no error, and the
        endpoint the query selects. The list shown so far is kept. */
    method BeginFetch(searchQuery: JsStr) returns (e: Endpoint)
      requires Valid()
      modifies this
      ensures Valid()
      ensures e == Dispatch(searchQuery)
      ensures loading && error.None? && articles == old(articles)
    {
      loading := true;
      error := None;
      e := Dispatch(searchQuery);
    }

    /** The part after it settles: the data on success, the fixed message on failure, and
        never loading any more. `response` is None when the request failed. */
    method EndFetch(response: Option<seq<CardArticle>>)
      requires Valid()
      modifies this
      ensures Valid()
      ensures !loading
      ensures response.Some? ==> articles == response.value && error == old(error)
      ensures response.None? ==> articles == old(articles) && error == Some(FetchError)
    {
      if response.Some? {
        articles := response.value;
      } else {
        error := Some(FetchError);
      }
      loading := false;
    }

    /** `handleDelete`: nothing happens when the user declines, nor when the delete request
        fails (an alert is shown); otherwise every entry with the id leaves the list. */
    method HandleDelete(id: nat, confirmed: bool, deleted: bool)
      requires Valid()
      modifies this
      ensures Valid()
      ensures loading == old(loading) && error == old(error)
      ensures articles == if confirmed && deleted then RemoveId(old(articles), id) else old(articles)
    {
      if !confirmed {
        return;
      }
      if deleted {
        articles := RemoveId(articles, id);
      }
    }
  }

  /** A complete fetch: whatever the outcome, the list stops loading; a successful response
      is what the view then lists, or the empty message when it has no article. */
  method Fetch(s: ListState, searchQuery: JsStr, respond: Endpoint -> Option<seq<CardArticle>>)
    returns (e: Endpoint)
    requires s.Valid()
    modifies s
    ensures s.Valid() && !s.loading && e == Dispatch(searchQuery)
    ensures respond(e).Some? && respond(e).value == [] ==> s.CurrentView() == Empty
    ensures respond(e).Some? && respond(e).value != [] ==>
      s.CurrentView() == Listed(|respond(e).value|, respond(e).value)
    ensures respond(e).None? ==> s.CurrentView() == Error(FetchError)
  {
    e := s.BeginFetch(searchQuery);
    s.EndFetch(respond(e));
  }
}
