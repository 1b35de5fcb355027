/**
Cursor paging over the append-only journal (scripts/soul_config.py: read_journal, append_jsonl).
*/
module Journal {
  import opened Options

  /** A parsed entry; None as a line is one that does not parse to an object. */
  datatype Item = Item(id: Option<string>, body: string)

  type Line = Option<Item>

  function Clamped(limit: int): nat {
    var high := if limit < 50 then limit else 50;
    if high > 1 then high else 1
  }

  /** The entries, newest first. */
  function Newest(lines: seq<Line>): seq<Item> {
    if lines == [] then []
    else
      (if lines[|lines| - 1].Some? then [lines[|lines| - 1].value] else []) + Newest(lines[..|lines| - 1])
  }

  function Upto(items: seq<Item>, n: nat): seq<Item> {
    if |items| <= n then items else items[..n]
  }

  /** What follows the first entry with the given id, or nothing when no entry has it. */
  function Following(items: seq<Item>, before: string): seq<Item> {
    if items == [] then []
    else if items[0].id == Some(before) then items[1..]
    else Following(items[1..], before)
  }

  function Page(lines: seq<Line>, limit: int, before: string): seq<Item> {
    Upto(if before == "" then Newest(lines) else Following(Newest(lines), before), Clamped(limit))
  }

  lemma NewestSnoc(lines: seq<Line>, k: nat)
    requires 0 < k <= |lines|
    ensures Newest(lines[..k]) == (if lines[k - 1].Some? then [lines[k - 1].value] else []) + Newest(lines[..k - 1])
  {
    assert lines[..k][..k - 1] == lines[..k - 1];
  }

  /** Newest line first, accepting entries once the cursor has been passed, until the page is full. */
  method ReadJournal(lines: seq<Line>, limit: int, before: string) returns (out: seq<Item>)
    ensures out == Page(lines, limit, before)
  {
    hide Newest, Following, Clamped;
    var most := Clamped(limit);
    ClampedPositive(limit);
    out := [];
    var accepting := before == "";
    var k := |lines|;
    assert lines[..|lines|] == lines;
    ghost var goal := if before == "" then Newest(lines) else Following(Newest(lines), before);
    assert [] + goal == goal;
    while k > 0
      invariant 0 <= k <= |lines| && |out| < most
      invariant accepting ==> out + Newest(lines[..k]) == goal
      invariant !accepting ==> out == [] && before != "" && Following(Newest(lines[..k]), before) == goal
      decreases k
    {
      NewestSnoc(lines, k);
      k := k - 1;
      var line := lines[k];
      ghost var older := Newest(lines[..k]);
      assert [] + older == older;
      if line.None? {
        continue;
      }
      var item := line.value;
      FollowingCons(item, older, before);
      if !accepting {
        accepting := item.id == Some(before);
        continue;
      }
      assert (out + [item]) + older == out + ([item] + older);
      out := out + [item];
      if |out| >= most {
        assert goal[..most] == out;
        return;
      }
    }
    Nothing();
    NothingFollows(before);
    assert lines[..0] == [] && out + [] == out;
  }

  lemma ClampedPositive(limit: int)
    ensures 1 <= Clamped(limit) <= 50
  {
  }

  lemma {:induction false} FollowingCons(item: Item, older: seq<Item>, before: string)
    ensures Following([item] + older, before) == if item.id == Some(before) then older else Following(older, before)
  {
    assert ([item] + older)[1..] == older;
  }

  lemma {:induction false} NothingFollows(before: string)
    ensures Following([], before) == []
  {
  }

  lemma Nothing()
    ensures Newest([]) == []
  {
  }

  /** The page size asked for, but at least 1 and at most 50. */
  predicate PageSize(limit: int, n: int) {
    if limit >= 50 then n == 50 else if limit <= 1 then n == 1 else n == limit
  }

  /** Where a page starts: at the newest entry without a cursor, else right after the newest entry that carries it. */
  predicate StartsAfter(items: seq<Item>, before: string, start: int) {
    && 0 <= start <= |items|
    && if before == "" then start == 0
       else
         && start > 0 && items[start - 1].id == Some(before)
         && forall i :: 0 <= i < start - 1 ==> items[i].id != Some(before)
  }

  lemma {:induction false} FollowingStarts(items: seq<Item>, before: string) returns (start: Option<nat>)
    requires before != ""
    ensures start.Some? ==> StartsAfter(items, before, start.value) && Following(items, before) == items[start.value..]
    ensures start.None? ==> Following(items, before) == [] && forall i :: 0 <= i < |items| ==> items[i].id != Some(before)
  {
    if items == [] {
      start := None;
    } else if items[0].id == Some(before) {
      start := Some(1);
    } else {
      var later := FollowingStarts(items[1..], before);
      start := if later.Some? then Some(later.value + 1) else None;
      assert items == [items[0]] + items[1..];
    }
  }

  /** What a page holds: the entries from its start on, newest first, as many as fit the page size; nothing when no
      entry carries the cursor. */
  lemma {:induction false} PageHolds(lines: seq<Line>, limit: int, before: string)
    ensures var items, page := Newest(lines), Page(lines, limit, before);
            && (forall start, n :: StartsAfter(items, before, start) && PageSize(limit, n) ==>
                  page == items[start..if start + n < |items| then start + n else |items|])
            && (!(exists start :: StartsAfter(items, before, start)) ==> page == [])
  {
    hide Newest, Following;
    var items, page := Newest(lines), Page(lines, limit, before);
    var found: Option<nat> := Some(0);
    if before != "" {
      found := FollowingStarts(items, before);
    } else {
      assert StartsAfter(items, before, 0);
    }
    forall start, n | StartsAfter(items, before, start) && PageSize(limit, n)
      ensures page == items[start..if start + n < |items| then start + n else |items|]
    {
      assert found == Some(start);
      assert n == Clamped(limit);
    }
  }

  // ------------------------------------------------------------------ paging

  /** Every entry has an identifier of its own. */
  ghost predicate Identified(items: seq<Item>) {
    && (forall i :: 0 <= i < |items| ==> items[i].id.Some? && items[i].id.value != "")
    && (forall i, j :: 0 <= i < j < |items| ==> items[i].id != items[j].id)
  }

  lemma {:induction false} NewestConcat(a: seq<Line>, b: seq<Line>)
    ensures Newest(a + b) == Newest(b) + Newest(a)
    decreases |b|
  {
    hide Newest;
    if b == [] {
      Nothing();
      assert a + b == a && [] + Newest(a) == Newest(a);
    } else {
      var ab := a + b;
      assert ab[..|ab| - 1] == a + b[..|b| - 1] && ab[..|ab|] == ab && b[..|b|] == b;
      NewestConcat(a, b[..|b| - 1]);
      NewestSnoc(ab, |ab|);
      NewestSnoc(b, |b|);
      var head := if b[|b| - 1].Some? then [b[|b| - 1].value] else [];
      assert head + (Newest(b[..|b| - 1]) + Newest(a)) == (head + Newest(b[..|b| - 1])) + Newest(a);
    }
  }

  lemma {:induction false} FollowingAt(items: seq<Item>, k: nat)
    requires Identified(items) && k < |items|
    ensures Following(items, items[k].id.value) == items[k + 1..]
  {
    if k > 0 {
      assert Identified(items[1..]) by {
        forall i, j | 0 <= i < j < |items| - 1 ensures items[1..][i].id != items[1..][j].id {
          assert items[1..][i] == items[i + 1] && items[1..][j] == items[j + 1];
        }
      }
      FollowingAt(items[1..], k - 1);
    }
  }

  /** A cursor nobody carries, such as one whose entry retention removed, ends the paging. */
  lemma {:induction false} UnknownCursorEndsPaging(items: seq<Item>, before: string)
    requires forall i :: 0 <= i < |items| ==> items[i].id != Some(before)
    ensures Following(items, before) == []
  {
    if items != [] {
      UnknownCursorEndsPaging(items[1..], before);
    }
  }

  datatype Request = Request(lines: seq<Line>, limit: int)

  /** A reader that follows the last identifier of each page until a page is empty. */
  function Followed(requests: seq<Request>, before: string): seq<Item> {
    if requests == [] then []
    else
      var page := Page(requests[0].lines, requests[0].limit, before);
      if page == [] || page[|page| - 1].id.None? then page
      else page + Followed(requests[1..], page[|page| - 1].id.value)
  }

  /** Each request sees the journal of the first one with entries appended. */
  ghost predicate Appending(requests: seq<Request>, first: seq<Line>) {
    forall n :: 0 <= n < |requests| ==> first <= requests[n].lines && Identified(Newest(requests[n].lines))
  }

  lemma {:induction false} PageFromCursor(lines: seq<Line>, first: seq<Line>, limit: int, k: nat)
    requires first <= lines && Identified(Newest(lines)) && 0 < k <= |Newest(first)|
    ensures Newest(first)[k - 1].id.Some? && Newest(first)[k - 1].id.value != ""
    ensures Page(lines, limit, Newest(first)[k - 1].id.value) == Upto(Newest(first)[k..], Clamped(limit))
  {
    hide Newest;
    var appended := lines[|first|..];
    assert lines == first + appended;
    NewestConcat(first, appended);
    var at := |Newest(appended)| + k - 1;
    assert Newest(lines)[at] == Newest(first)[k - 1];
    FollowingAt(Newest(lines), at);
    assert Newest(lines)[at + 1..] == Newest(first)[k..];
  }

  lemma {:induction false} LaterAppending(requests: seq<Request>, first: seq<Line>)
    requires requests != [] && Appending(requests, first)
    ensures Appending(requests[1..], first)
  {
    hide Newest, Identified;
    forall n | 0 <= n < |requests| - 1
      ensures first <= requests[1..][n].lines && Identified(Newest(requests[1..][n].lines))
    {
      assert requests[1..][n] == requests[n + 1];
    }
  }

  lemma UptoIsSlice(items: seq<Item>, k: nat, n: nat)
    requires k <= |items|
    ensures var page := Upto(items[k..], n); k + |page| <= |items| && page == items[k..k + |page|]
  {
  }

  lemma {:induction false} FirstOfAppending(requests: seq<Request>, first: seq<Line>)
    requires requests != [] && Appending(requests, first)
    ensures first <= requests[0].lines && Identified(Newest(requests[0].lines))
  {
    hide Newest, Identified;
  }

  /** From the entry before position k on, the reader gets what is left of the first journal. */
  lemma {:induction false} FollowedFrom(requests: seq<Request>, first: seq<Line>, k: nat)
    requires Appending(requests, first) && 0 < k <= |Newest(first)|
    requires Identified(Newest(first))
    ensures var rest := Newest(first)[k..];
            var got := Followed(requests, Newest(first)[k - 1].id.value);
            got <= rest && (|requests| > |rest| ==> got == rest)
    decreases |requests|
  {
    hide Newest, Identified, Appending, Page, Upto;
    if requests != [] {
      var items := Newest(first);
      FirstOfAppending(requests, first);
      PageFromCursor(requests[0].lines, first, requests[0].limit, k);
      UptoIsSlice(items, k, Clamped(requests[0].limit));
      var page := Page(requests[0].lines, requests[0].limit, items[k - 1].id.value);
      if page != [] {
        var next := k + |page|;
        assert page[|page| - 1] == items[next - 1];
        PageFromCursor(requests[0].lines, first, requests[0].limit, next);
        LaterAppending(requests, first);
        FollowedFrom(requests[1..], first, next);
        assert items[k..] == items[k..next] + items[next..];
      } else {
        UptoEmpty(items[k..], requests[0].limit);
      }
    }
  }

  lemma UptoEmpty(items: seq<Item>, limit: int)
    requires Upto(items, Clamped(limit)) == []
    ensures items == []
  {
  }

  /** Main result: following the last identifier of each page, with any limits and with entries appended
      between requests, yields the entries present at the first request newest first, each exactly once;
      fewer requests yield a prefix. */
  lemma {:induction false} PagingListsEachEntryOnce(requests: seq<Request>, first: seq<Line>)
    requires requests != [] && requests[0].lines == first && Appending(requests, first)
    ensures Followed(requests, "") <= Newest(first)
    ensures |requests| > |Newest(first)| ==> Followed(requests, "") == Newest(first)
  {
    hide Newest, Identified;
    var items := Newest(first);
    assert Identified(items);
    var page := Page(first, requests[0].limit, "");
    if page != [] {
      assert page == items[..|page|] && page[|page| - 1] == items[|page| - 1];
      PageFromCursor(first, first, requests[0].limit, |page|);
      LaterAppending(requests, first);
      FollowedFrom(requests[1..], first, |page|);
      assert items == items[..|page|] + items[|page|..];
    }
  }
}
