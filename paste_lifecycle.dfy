/**
  The life of one paste over a series of reads: how the expiry policy
  behaves at its boundaries, that a view limit of n admits exactly n reads,
  that expiry is terminal while the clock does not go back, and that a
  freshly created paste reads back its content.
*/
module PasteLifecycle {
  import opened Wrappers
  import opened JsText
  import opened PasteController

  /** Number of successful (200) answers among `rs`. */
  function Served(rs: seq<GetResponse>): (n: nat)
    ensures n <= |rs|
  {
    if rs == [] then 0 else (if rs[0].Content? then 1 else 0) + Served(rs[1..])
  }

  /** Successive `getPaste` calls for one id at the times `nows`: the
      answers, and the store afterwards. Only that id's view count moves,
      and it moves by the number of successful answers. */
  function ReadAll(store: Store, id: Id, nows: seq<int>): (out: (seq<GetResponse>, Store))
    ensures |out.0| == |nows|
    ensures out.1.Keys == store.Keys
    ensures forall k :: k in store ==>
              out.1[k] == store[k].(viewCount := store[k].viewCount + if k == id then Served(out.0) else 0)
    decreases |nows|
  {
    if nows == [] then ([], store)
    else
      var first := Read(store, id, nows[0]);
      var rest := ReadAll(first.1, id, nows[1..]);
      assert ([first.0] + rest.0)[1..] == rest.0;
      ([first.0] + rest.0, rest.1)
  }

  /** For a record that passed validation the count-based condition needs no
      truthiness guard: expired iff past the expiry or out of views. */
  lemma ExpiredIffPolicy(now: int, p: Paste)
    requires WellFormed(p)
    ensures IsExpired(now, p) <==>
              (p.expiresAt.Some? && now > p.expiresAt.value) ||
              (p.maxViews.Some? && p.viewCount >= p.maxViews.value)
  {
  }

  /** In a store that only holds records that passed the checks, `getPaste`
      answers 410 exactly when the plain policy says the record is expired. */
  lemma ValidStoreCleanPolicy(store: Store, id: Id, now: int)
    requires StoreInvariant(store) && id in store
    ensures Read(store, id, now).0 == Expired <==>
              (store[id].expiresAt.Some? && now > store[id].expiresAt.value) ||
              (store[id].maxViews.Some? && store[id].viewCount >= store[id].maxViews.value)
  {
  }

  /** The time bound is strict: a record is still live at its own
      `expiresAt` and expired one millisecond later. */
  lemma ExpiryInstantIsLive(p: Paste, t: int)
    requires p.expiresAt == Some(t) && !ViewsUsedUp(p)
    ensures !IsExpired(t, p)
    ensures IsExpired(t + 1, p)
  {
  }

  /** The count bound is not strict: with a limit of n, a record is live
      after n - 1 views and expired after n. */
  lemma LimitReachedIsExpired(p: Paste, now: int, n: int)
    requires p.maxViews == Some(n) && n >= 1 && !PastExpiry(now, p)
    ensures p.viewCount == n - 1 ==> !IsExpired(now, p)
    ensures p.viewCount == n ==> IsExpired(now, p)
  {
  }

  /** The policy is monotone: a later clock and a higher view count never
      bring an expired record back. */
  lemma ExpiryMonotone(p: Paste, now: int, later: int, views: nat)
    requires now <= later && p.viewCount <= views
    ensures IsExpired(now, p) ==> IsExpired(later, p.(viewCount := views))
  {
  }

  /** Once the record is expired at time t, every read at t or later answers
      410 and leaves the store alone. */
  lemma {:induction false} StaysExpired(store: Store, id: Id, t: int, nows: seq<int>)
    requires id in store && IsExpired(t, store[id])
    requires forall i :: 0 <= i < |nows| ==> t <= nows[i]
    ensures forall i :: 0 <= i < |nows| ==> ReadAll(store, id, nows).0[i] == Expired
    ensures ReadAll(store, id, nows).1 == store
    decreases |nows|
  {
    if nows != [] {
      var first := Read(store, id, nows[0]);
      assert first == (Expired, store);
      StaysExpired(store, id, t, nows[1..]);
      var rs := ReadAll(store, id, nows).0;
      forall i | 0 <= i < |nows| ensures rs[i] == Expired {
        if i > 0 {
          assert rs[i] == ReadAll(store, id, nows[1..]).0[i - 1];
        }
      }
    }
  }

  /** No answer after a 410 is anything but a 410. */
  predicate ExpiredThroughout(rs: seq<GetResponse>) {
    forall i, j :: 0 <= i < j < |rs| && rs[i] == Expired ==> rs[j] == Expired
  }

  /** Expiry is terminal: while the clock does not go back, a 410 answer is
      followed only by 410 answers. */
  lemma {:induction false} ExpiryIsTerminal(store: Store, id: Id, nows: seq<int>)
    requires forall i, j :: 0 <= i < j < |nows| ==> nows[i] <= nows[j]
    ensures ExpiredThroughout(ReadAll(store, id, nows).0)
    decreases |nows|
  {
    if nows != [] {
      var first := Read(store, id, nows[0]);
      var tail := nows[1..];
      var rest := ReadAll(first.1, id, tail).0;
      var rs := ReadAll(store, id, nows).0;
      assert rs == [first.0] + rest;
      ExpiryIsTerminal(first.1, id, tail);
      assert ExpiredThroughout(rest);
      if first.0 == Expired {
        StaysExpired(store, id, nows[0], tail);
      }
      forall i, j | 0 <= i < j < |nows| && rs[i] == Expired ensures rs[j] == Expired {
        assert rs[j] == rest[j - 1];
        if i > 0 {
          assert rs[i] == rest[i - 1];
          assert rest[i - 1] == Expired;
          assert rest[j - 1] == Expired;
        } else {
          assert first.0 == Expired;
          assert rest[j - 1] == Expired;
        }
      }
    }
  }

  /** A view limit of n admits exactly n successful reads in all: starting
      from `viewCount` views already counted, and while the time bound has
      not passed, read number i succeeds iff `viewCount + i < n`, and the
      count stops at n. */
  lemma {:induction false} ViewLimitAdmitsExactly(store: Store, id: Id, n: int, nows: seq<int>)
    requires id in store && store[id].maxViews == Some(n) && 1 <= n && store[id].viewCount <= n
    requires forall i :: 0 <= i < |nows| ==> !PastExpiry(nows[i], store[id])
    ensures var out := ReadAll(store, id, nows);
            forall i :: 0 <= i < |nows| ==>
              out.0[i] == if store[id].viewCount + i < n then Content(store[id].content) else Expired
    ensures ReadAll(store, id, nows).1[id].viewCount ==
              if store[id].viewCount + |nows| < n then store[id].viewCount + |nows| else n
    decreases |nows|
  {
    if nows != [] {
      var p := store[id];
      var first := Read(store, id, nows[0]);
      var tail := nows[1..];
      ViewLimitAdmitsExactly(first.1, id, n, tail);
      var rest := ReadAll(first.1, id, tail).0;
      var rs := ReadAll(store, id, nows).0;
      assert rs == [first.0] + rest;
      forall i | 0 <= i < |nows|
        ensures rs[i] == if p.viewCount + i < n then Content(p.content) else Expired
      {
        if i > 0 {
          assert rs[i] == rest[i - 1];
        }
      }
    }
  }

  /** `createPaste` followed by `getPaste`: the new id reads back the
      submitted content, unless the submitted expiry already lies before the
      time of the read. */
  lemma CreateThenRead(store: Store, id: Id, content: ContentField, expiresAt: ExpiresAtField,
                       maxViews: MaxViewsField, now: int)
    requires Create(store, id, content, expiresAt, maxViews).0.Created?
    ensures var after := Create(store, id, content, expiresAt, maxViews).1;
            Read(after, id, now).0 ==
              if expiresAt.Parsed? && now > expiresAt.millis then Expired else Content(content.s)
  {
  }

  /** A paste created with `maxViews` = n and no expiry is served exactly n
      times, whatever the clock says. */
  lemma CreatedWithLimitServesExactly(store: Store, id: Id, text: string, n: int, nows: seq<int>)
    requires Create(store, id, Text(text), Falsy, Int(n)).0.Created?
    ensures var out := ReadAll(Create(store, id, Text(text), Falsy, Int(n)).1, id, nows);
            forall i :: 0 <= i < |nows| ==> out.0[i] == if i < n then Content(text) else Expired
    ensures Served(ReadAll(Create(store, id, Text(text), Falsy, Int(n)).1, id, nows).0) ==
              if |nows| < n then |nows| else n
  {
    var after := Create(store, id, Text(text), Falsy, Int(n)).1;
    ViewLimitAdmitsExactly(after, id, n, nows);
  }

  /** The size check is strict: an ASCII text of exactly 10240 characters is
      accepted and one of 10241 is refused. */
  lemma SizeLimitBoundary(s: string, expiresAt: ExpiresAtField, maxViews: MaxViewsField)
    requires !IsBlank(s) && forall i :: 0 <= i < |s| ==> (s[i] as int) < 0x80
    ensures |s| == MaxContentBytes ==> CheckBody(Text(s), expiresAt, maxViews) != Failure(ContentTooLarge)
    ensures |s| == MaxContentBytes + 1 ==> CheckBody(Text(s), expiresAt, maxViews) == Failure(ContentTooLarge)
  {
    Utf8LenIsLengthIffAscii(s);
  }
}

