/**
  `retrieve_all_files`: follow the page tokens of a paged listing and gather
  the items of every page, stopping at the first page without a next token or
  at the first failing request.

  The paged service is a map from the page token sent with a request to the
  reply. The empty token stands for "no token": the source sends no token on
  the first request and treats a missing or empty `nextPageToken` alike, as
  the end of the listing. A token absent from the map is a request that fails.
 */
module Paging {

  datatype Page<T> = Page(items: seq<T>, nextPageToken: string)

  datatype ListReply<T> = Listed(page: Page<T>) | ListError

  type PagedService<T> = map<string, ListReply<T>>

  function Fetch<T>(svc: PagedService<T>, token: string): ListReply<T> {
    if token in svc then svc[token] else ListError
  }

  /** The token sent with request number i, given the pages received before it. */
  function RequestToken<T>(pages: seq<Page<T>>, i: nat): string
    requires i <= |pages|
  {
    if i == 0 then "" else pages[i - 1].nextPageToken
  }

  /** Page i is the reply to request i, and it carries a token on unless it is the last. */
  ghost predicate PageAt<T>(svc: PagedService<T>, pages: seq<Page<T>>, i: nat)
    requires i < |pages|
  {
    && Fetch(svc, RequestToken(pages, i)) == Listed(pages[i])
    && (i < |pages| - 1 ==> pages[i].nextPageToken != "")
  }

  /** `pages` are the replies to successive requests, each one carrying on to the next. */
  ghost predicate ChainFrom<T>(svc: PagedService<T>, pages: seq<Page<T>>) {
    forall i: nat :: i < |pages| ==> PageAt(svc, pages, i)
  }

  /** After `pages`, the listing ends: no further token, or the next request fails. */
  ghost predicate Finished<T>(svc: PagedService<T>, pages: seq<Page<T>>) {
    if |pages| == 0 then Fetch(svc, "").ListError?
    else
      var last := pages[|pages| - 1];
      last.nextPageToken == "" || Fetch(svc, last.nextPageToken).ListError?
  }

  ghost predicate CompleteChain<T>(svc: PagedService<T>, pages: seq<Page<T>>) {
    ChainFrom(svc, pages) && Finished(svc, pages)
  }

  /** The items of the pages, in page order. */
  function Items<T>(pages: seq<Page<T>>): seq<T> {
    if |pages| == 0 then [] else Items(pages[..|pages| - 1]) + pages[|pages| - 1].items
  }

  lemma ChainsAgree<T>(svc: PagedService<T>, a: seq<Page<T>>, b: seq<Page<T>>, i: nat)
    requires ChainFrom(svc, a) && ChainFrom(svc, b)
    requires i < |a| && i < |b|
    ensures a[i] == b[i]
  {
    if i > 0 {
      ChainsAgree(svc, a, b, i - 1);
    }
    assert PageAt(svc, a, i) && PageAt(svc, b, i);
  }

  /** A listing has at most one complete chain of pages: the service decides it. */
  lemma CompleteChainUnique<T>(svc: PagedService<T>, a: seq<Page<T>>, b: seq<Page<T>>)
    requires CompleteChain(svc, a) && CompleteChain(svc, b)
    ensures a == b
  {
    forall i | 0 <= i < |a| && i < |b| ensures a[i] == b[i] {
      ChainsAgree(svc, a, b, i);
    }
    if |a| < |b| {
      ShorterChainNotFinished(svc, a, b);
    } else if |b| < |a| {
      ShorterChainNotFinished(svc, b, a);
    }
  }

  lemma ShorterChainNotFinished<T>(svc: PagedService<T>, a: seq<Page<T>>, b: seq<Page<T>>)
    requires ChainFrom(svc, a) && ChainFrom(svc, b)
    requires |a| < |b|
    requires forall i :: 0 <= i < |a| ==> a[i] == b[i]
    ensures !Finished(svc, a)
  {
    assert RequestToken(b, |a|) == RequestToken(a, |a|);
    assert PageAt(svc, b, |a|);
    if |a| > 0 {
      assert PageAt(svc, b, |a| - 1);
    }
  }

  /**
    `retrieve_all_files` over the paged service. The source loops forever when
    the tokens cycle, so the model requires the listing to end.
   */
  method RetrieveAllFiles<T>(svc: PagedService<T>) returns (result: seq<T>)
    requires exists pages :: CompleteChain(svc, pages)
    ensures forall pages :: CompleteChain(svc, pages) ==> result == Items(pages)
  {
    ghost var all :| CompleteChain(svc, all);
    ghost var done: seq<Page<T>> := [];
    result := [];
    var token := "";
    while true
      invariant ChainFrom(svc, done)
      invariant done <= all
      invariant result == Items(done)
      invariant token == RequestToken(done, |done|)
      invariant |done| > 0 ==> token != ""
      decreases |all| - |done|
    {
      var reply := Fetch(svc, token);
      if reply.ListError? {
        break;
      }
      NextPageOfChain(svc, all, done);
      var page := reply.page;
      result := result + page.items;
      done := done + [page];
      token := page.nextPageToken;
      if token == "" {
        break;
      }
    }
    forall pages | CompleteChain(svc, pages) ensures result == Items(pages) {
      CompleteChainUnique(svc, pages, done);
    }
  }

  /** While the listing goes on, the next reply is the next page of the complete chain. */
  lemma NextPageOfChain<T>(svc: PagedService<T>, all: seq<Page<T>>, done: seq<Page<T>>)
    requires CompleteChain(svc, all) && ChainFrom(svc, done) && done <= all
    requires |done| > 0 ==> done[|done| - 1].nextPageToken != ""
    requires Fetch(svc, RequestToken(done, |done|)).Listed?
    ensures |done| < |all|
    ensures Fetch(svc, RequestToken(done, |done|)) == Listed(all[|done|])
    ensures ChainFrom(svc, done + [all[|done|]])
  {
    assert RequestToken(all, |done|) == RequestToken(done, |done|);
    assert PageAt(svc, all, |done|);
    var next := done + [all[|done|]];
    forall i: nat | i < |next| ensures PageAt(svc, next, i) {
      if i < |done| {
        assert RequestToken(next, i) == RequestToken(done, i);
        assert PageAt(svc, done, i);
      } else {
        assert RequestToken(next, i) == RequestToken(done, |done|);
      }
    }
  }
}
