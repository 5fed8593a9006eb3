/** Page-number pagination as the hosting platform's list endpoints offer it.
    A listing is modelled by the answers the platform gives to successive
    requests: answer k is the reply to the k-th request. A client starts at
    page 0 (no page parameter) and keeps asking for `NextPage` until a reply
    says `NextPage == 0` or a request fails. */
module Paging {
  import opened Wrappers

  /** One decoded page: its items and the number of the next page (0 on the last page). */
  datatype Page<T> = Page(items: seq<T>, nextPage: nat)

  /** The reply to one page request: a page, or the error the client reports. */
  type Response<T> = Result<Page<T>, string>

  /** A reply after which a client stops asking: an error or the last page. */
  predicate Stops<T>(r: Response<T>) {
    r.Failure? || r.value.nextPage == 0
  }

  /** The platform eventually answers with a last page or an error. */
  predicate Terminates<T>(rs: seq<Response<T>>) {
    exists i :: 0 <= i < |rs| && Stops(rs[i])
  }

  /** Index of the reply at which a page-following client stops. */
  function FirstStop<T>(rs: seq<Response<T>>): (i: nat)
    requires Terminates(rs)
    ensures i < |rs| && Stops(rs[i])
    ensures forall j :: 0 <= j < i ==> !Stops(rs[j])
  {
    var w :| 0 <= w < |rs| && Stops(rs[w]);
    if Stops(rs[0]) then 0
    else
      assert w > 0 && Stops(rs[1..][w - 1]);
      1 + FirstStop(rs[1..])
  }

  /** The items of one reply (an error carries none). */
  function ItemsOf<T>(r: Response<T>): seq<T> {
    if r.Success? then r.value.items else []
  }

  /** The items of a run of replies, in request order. */
  function PageItems<T>(rs: seq<Response<T>>): seq<T> {
    if rs == [] then [] else PageItems(rs[..|rs| - 1]) + ItemsOf(rs[|rs| - 1])
  }

  /** What a client that follows the listing until it stops has seen. */
  function ListedItems<T>(rs: seq<Response<T>>): seq<T>
    requires Terminates(rs)
  {
    PageItems(rs[..FirstStop(rs) + 1])
  }

  /** The listing stopped on an error rather than on its last page. */
  predicate ListingFailed<T>(rs: seq<Response<T>>)
    requires Terminates(rs)
  {
    rs[FirstStop(rs)].Failure?
  }

  /** `requested` lists the page numbers a client asks for: page 0 first, then
      each reply's `NextPage`, one request per reply up to the stopping one. */
  predicate FollowsNextPage<T>(rs: seq<Response<T>>, requested: seq<nat>)
    requires Terminates(rs)
  {
    && |requested| == FirstStop(rs) + 1
    && requested[0] == 0
    && forall i :: 0 < i < |requested| ==> rs[i - 1].Success? && requested[i] == rs[i - 1].value.nextPage
  }

  lemma ConcatAssoc<T>(a: seq<T>, b: seq<T>, c: seq<T>)
    ensures (a + b) + c == a + (b + c)
  {
  }

  /** Extending a run of replies by one reply adds that reply's items at the end. */
  lemma PageItemsSnoc<T>(rs: seq<Response<T>>, k: nat)
    requires k < |rs|
    ensures PageItems(rs[..k + 1]) == PageItems(rs[..k]) + ItemsOf(rs[k])
  {
    assert rs[..k + 1][..k] == rs[..k];
  }

  /** Every item a client collects was on a page the platform returned
      successfully at or before the stopping reply. */
  lemma {:induction false} PageItemsFrom<T>(rs: seq<Response<T>>, x: T)
    requires x in PageItems(rs)
    ensures exists i :: 0 <= i < |rs| && rs[i].Success? && x in rs[i].value.items
  {
    var n := |rs| - 1;
    if x in ItemsOf(rs[n]) {
    } else {
      PageItemsFrom(rs[..n], x);
      var i :| 0 <= i < n && rs[..n][i].Success? && x in rs[..n][i].value.items;
      assert rs[i] == rs[..n][i];
    }
  }

  /** A client that has not stopped before reply `k` and stops at it has seen
      exactly the listing's items. */
  lemma StopsAt<T>(rs: seq<Response<T>>, k: nat)
    requires Terminates(rs) && k <= FirstStop(rs) && k < |rs| && Stops(rs[k])
    ensures k == FirstStop(rs)
    ensures ListedItems(rs) == PageItems(rs[..k]) + ItemsOf(rs[k])
  {
    PageItemsSnoc(rs, k);
  }

  /** What one more reply tells a client that has not stopped before reply `k`
      and has seen `seen` so far. */
  lemma PageStep<T>(rs: seq<Response<T>>, k: nat, seen: seq<T>)
    requires Terminates(rs) && k <= FirstStop(rs) && seen == PageItems(rs[..k])
    ensures k < |rs|
    ensures Stops(rs[k]) ==> k == FirstStop(rs)
    ensures rs[k].Failure? ==> ListingFailed(rs) && ListedItems(rs) == seen
    ensures rs[k].Success? ==> PageItems(rs[..k + 1]) == seen + rs[k].value.items
    ensures rs[k].Success? && rs[k].value.nextPage == 0 ==>
      !ListingFailed(rs) && ListedItems(rs) == seen + rs[k].value.items
    ensures rs[k].Success? && rs[k].value.nextPage != 0 ==> k + 1 <= FirstStop(rs)
  {
    PageItemsSnoc(rs, k);
    if Stops(rs[k]) {
      StopsAt(rs, k);
    }
  }

  /** The first `k` requests asked for page 0 and then each reply's `NextPage`. */
  predicate RequestedSoFar<T>(rs: seq<Response<T>>, requested: seq<nat>, k: nat)
    requires k <= |rs|
  {
    && |requested| == k
    && (k > 0 ==> requested[0] == 0)
    && forall i :: 0 < i < k ==> rs[i - 1].Success? && requested[i] == rs[i - 1].value.nextPage
  }

  /** Requesting the page the previous reply named keeps the trace; the request
      answered by the stopping reply completes it. */
  lemma RequestNext<T>(rs: seq<Response<T>>, requested: seq<nat>, k: nat, page: nat)
    requires Terminates(rs) && k <= FirstStop(rs)
    requires RequestedSoFar(rs, requested, k)
    requires k == 0 ==> page == 0
    requires k > 0 ==> rs[k - 1].Success? && page == rs[k - 1].value.nextPage
    ensures k + 1 <= |rs| && RequestedSoFar(rs, requested + [page], k + 1)
    ensures k == FirstStop(rs) ==> FollowsNextPage(rs, requested + [page])
  {
    var next := requested + [page];
    forall i | 0 < i < k + 1
      ensures rs[i - 1].Success? && next[i] == rs[i - 1].value.nextPage
    {
      if i < k {
        assert next[i] == requested[i];
      }
    }
  }
}
