/** The bookkeeping of the cooperative scheduler
    (src/rust/catnip/src/scheduler.rs): a slab of futures indexed by key,
    and a vector of waker pages, page `k / 64` holding the notified,
    completed and dropped bits of key `k` at bit `k % 64`. */
module Scheduling {
  import opened Bytes
  import opened Options
  import opened Bits64

  const WAKER_PAGE_SIZE: nat := 64

  /** A waker page: three 64-bit sets of subpage indices. */
  datatype WakerPage = WakerPage(notified: u64, completed: u64, dropped: u64)

  /** `WakerPage::new`: nothing notified, completed or dropped. */
  const EMPTY_PAGE := WakerPage(0, 0, 0)

  /** `b | (1 << i)`. */
  function SetBit(b: u64, i: nat): (r: u64)
    requires i < WAKER_PAGE_SIZE
    ensures forall j :: Bit(r, j) == (Bit(b, j) || j == i)
  {
    if Bit(b, i) then b
    else
      Pow2Word();
      Pow2Monotone(i, 64);
      SetBitBound(b, i, 64);
      assert forall j :: Bit(b + Pow2(i), j) == (Bit(b, j) || j == i) by {
        forall j ensures Bit(b + Pow2(i), j) == (Bit(b, j) || j == i) {
          SetBitAt(b, i, j);
        }
      }
      b + Pow2(i)
  }

  /** `b & !(1 << i)`. */
  function ClearBit(b: u64, i: nat): (r: u64)
    requires i < WAKER_PAGE_SIZE
    ensures forall j :: Bit(r, j) == (Bit(b, j) && j != i)
  {
    if !Bit(b, i) then b
    else
      BitBound(b, i);
      assert forall j :: Bit(b - Pow2(i), j) == (Bit(b, j) && j != i) by {
        forall j ensures Bit(b - Pow2(i), j) == (Bit(b, j) && j != i) {
          ClearBitAt(b, i, j);
        }
      }
      b - Pow2(i)
  }

  /** `initialize(ix)`: a freshly inserted future starts out notified, so
      that the next poll polls it. */
  function Initialize(pg: WakerPage, ix: nat): WakerPage
    requires ix < WAKER_PAGE_SIZE
  {
    WakerPage(SetBit(pg.notified, ix), ClearBit(pg.completed, ix), ClearBit(pg.dropped, ix))
  }

  /** `clear(ix)`. */
  function Clear(pg: WakerPage, ix: nat): WakerPage
    requires ix < WAKER_PAGE_SIZE
  {
    WakerPage(ClearBit(pg.notified, ix), ClearBit(pg.completed, ix), ClearBit(pg.dropped, ix))
  }

  function MarkCompleted(pg: WakerPage, ix: nat): WakerPage
    requires ix < WAKER_PAGE_SIZE
  {
    pg.(completed := SetBit(pg.completed, ix))
  }

  function MarkDropped(pg: WakerPage, ix: nat): WakerPage
    requires ix < WAKER_PAGE_SIZE
  {
    pg.(dropped := SetBit(pg.dropped, ix))
  }

  /** Some bit of subpage `ix` is set. */
  predicate Marked(pg: WakerPage, ix: nat)
  {
    Bit(pg.notified, ix) || Bit(pg.completed, ix) || Bit(pg.dropped, ix)
  }

  /** `Inner::page(key)`: the page index and subpage index of a key. */
  function PageOf(key: nat): (r: (nat, nat))
    ensures r.0 * WAKER_PAGE_SIZE + r.1 == key
    ensures r.1 < WAKER_PAGE_SIZE
  {
    (key / WAKER_PAGE_SIZE, key % WAKER_PAGE_SIZE)
  }

  /** The key at subpage `b` of page `p` (`page_ix * WAKER_PAGE_SIZE +
      subpage_ix` in `poll`) splits back into `(p, b)`. */
  lemma PageOfKey(p: nat, b: nat)
    requires b < WAKER_PAGE_SIZE
    ensures PageOf(p * WAKER_PAGE_SIZE + b) == (p, b)
  {
  }

  /** A `SchedulerHandle`: the key it still holds, if any.  Its
      `waker_page` reference is the page `PageOf(key).0` of the scheduler. */
  datatype Handle = Handle(key: Option<nat>)

  /** `into_raw`: takes the key out of the handle (which then has none, so
      dropping it does nothing). */
  function IntoRaw(h: Handle): (r: (nat, Handle))
    requires h.key.Some?
    ensures h.key == Some(r.0) && r.1.key.None?
  {
    (h.key.value, Handle(None))
  }

  /** Whether subpage `k` is completed once `poll` has run over a page
      whose bits were `pg` before, `ready(k)` telling whether the future of
      key `k` finishes when polled. */
  predicate CompletedAfterPoll(pg: WakerPage, ix: nat, ready: bool)
  {
    !Bit(pg.dropped, ix) && (Bit(pg.completed, ix) || (Bit(pg.notified, ix) && ready))
  }

  /** Whether the future stored at subpage `b` of page `p` is Ready when
      polled. */
  predicate ReadyAt<F>(slab: map<nat, F>, isReady: F -> bool, p: nat, b: nat)
  {
    var k := p * WAKER_PAGE_SIZE + b;
    k in slab && isReady(slab[k])
  }

  /** Every slab key has its page. */
  ghost predicate KeysPaged<F>(slab: map<nat, F>, pages: seq<WakerPage>)
  {
    forall k :: k in slab ==> PageOf(k).0 < |pages|
  }

  /** Every set bit belongs to a key in the slab. */
  ghost predicate MarksLive<F>(slab: map<nat, F>, pages: seq<WakerPage>)
  {
    forall p, b :: 0 <= p < |pages| && 0 <= b < WAKER_PAGE_SIZE && Marked(pages[p], b) ==>
      p * WAKER_PAGE_SIZE + b in slab
  }

  /** Replacing page `p` by one whose every set bit was set before or
      belongs to a live key keeps every bit live. */
  lemma MarksLiveReplace<F>(slab: map<nat, F>, pages: seq<WakerPage>, p: nat, pg: WakerPage)
    requires MarksLive(slab, pages) && p < |pages|
    requires forall b :: 0 <= b < WAKER_PAGE_SIZE && Marked(pg, b) ==>
               Marked(pages[p], b) || p * WAKER_PAGE_SIZE + b in slab
    ensures MarksLive(slab, pages[p := pg])
  {
    var after := pages[p := pg];
    forall q, b | 0 <= q < |after| && 0 <= b < WAKER_PAGE_SIZE && Marked(after[q], b)
      ensures q * WAKER_PAGE_SIZE + b in slab
    {
      if q != p {
        assert Marked(pages[q], b);
      }
    }
  }

  /** A key whose subpage has no bit set can leave the slab. */
  lemma MarksLiveRemove<F>(slab: map<nat, F>, pages: seq<WakerPage>, p: nat, b: nat)
    requires MarksLive(slab, pages) && p < |pages| && b < WAKER_PAGE_SIZE && !Marked(pages[p], b)
    ensures MarksLive(slab - {p * WAKER_PAGE_SIZE + b}, pages)
  {
    forall q, c | 0 <= q < |pages| && 0 <= c < WAKER_PAGE_SIZE && Marked(pages[q], c)
      ensures q * WAKER_PAGE_SIZE + c in slab - {p * WAKER_PAGE_SIZE + b}
    {
      PageOfKey(q, c);
      PageOfKey(p, b);
    }
  }

  /** Adding a key to the slab, or an empty page, keeps every bit live. */
  lemma MarksLiveGrow<F>(slab: map<nat, F>, pages: seq<WakerPage>, k: nat, f: F)
    requires MarksLive(slab, pages)
    ensures MarksLive(slab[k := f], pages)
    ensures MarksLive(slab, pages + [EMPTY_PAGE])
  {
    var after := pages + [EMPTY_PAGE];
    forall q, b | 0 <= q < |after| && 0 <= b < WAKER_PAGE_SIZE && Marked(after[q], b)
      ensures q * WAKER_PAGE_SIZE + b in slab
    {
      if q == |pages| {
        ZeroHasNoBits(b);
        assert false;
      }
      assert Marked(pages[q], b);
    }
  }

  /** Polling subpage `ix` of page `p`: its completed bit is set when
      its future is Ready, and every other bit stays. */
  lemma PollStep<F>(before: u64, after: u64, c0: u64, slab: map<nat, F>, isReady: F -> bool,
                    p: nat, done: seq<nat>, ix: nat)
    requires ix < WAKER_PAGE_SIZE && p * WAKER_PAGE_SIZE + ix in slab
    requires forall b :: 0 <= b < WAKER_PAGE_SIZE ==>
               (Bit(before, b) <==> Bit(c0, b) || (b in done && ReadyAt(slab, isReady, p, b)))
    requires after == if isReady(slab[p * WAKER_PAGE_SIZE + ix]) then SetBit(before, ix) else before
    ensures forall b :: 0 <= b < WAKER_PAGE_SIZE ==>
              (Bit(after, b) <==> Bit(c0, b) || (b in done + [ix] && ReadyAt(slab, isReady, p, b)))
  {
  }

  /** Removing the key at subpage `b` of page `p` from a slab that has
      lost the keys of the subpages `done` of that page. */
  lemma DropStep<F>(slab: map<nat, F>, s0: map<nat, F>, p: nat, done: seq<nat>, b: nat)
    requires b < WAKER_PAGE_SIZE
    requires forall k :: k in slab <==> k in s0 && !(PageOf(k).0 == p && PageOf(k).1 in done)
    ensures forall k :: k in slab - {p * WAKER_PAGE_SIZE + b} <==>
              k in s0 && !(PageOf(k).0 == p && PageOf(k).1 in done + [b])
  {
    PageOfKey(p, b);
    forall k ensures k in slab - {p * WAKER_PAGE_SIZE + b} <==>
                       k in s0 && !(PageOf(k).0 == p && PageOf(k).1 in done + [b]) {
      assert k == p * WAKER_PAGE_SIZE + b <==> PageOf(k) == (p, b);
    }
  }

  class Scheduler<F> {
    var slab: map<nat, F>
    var pages: seq<WakerPage>

    /** Every slab key has its page, and every set bit belongs to a key
        in the slab. */
    ghost predicate Valid()
      reads this
    {
      KeysPaged(slab, pages) && MarksLive(slab, pages)
    }

    /** `Scheduler::new`. */
    constructor ()
      ensures Valid() && slab == map[] && pages == []
    {
      slab := map[];
      pages := [];
    }

    /** `Scheduler::insert` and `Inner::insert`: the slab stores the
        future under a vacant key, the page vector grows until it covers
        that key, and the key's subpage is initialized. */
    method Insert(future: F) returns (h: Handle)
      requires Valid()
      modifies this
      ensures Valid()
      ensures h.key.Some? && h.key.value !in old(slab)
      ensures slab == old(slab)[h.key.value := future]
      ensures PageOf(h.key.value).0 < |pages|
      ensures |old(pages)| <= |pages|
      ensures |pages| == if PageOf(h.key.value).0 < |old(pages)| then |old(pages)| else PageOf(h.key.value).0 + 1
      ensures pages[PageOf(h.key.value).0] ==
                Initialize(if PageOf(h.key.value).0 < |old(pages)| then old(pages)[PageOf(h.key.value).0] else EMPTY_PAGE,
                           PageOf(h.key.value).1)
      ensures forall p :: 0 <= p < |pages| && p != PageOf(h.key.value).0 ==>
                pages[p] == if p < |old(pages)| then old(pages)[p] else EMPTY_PAGE
    {
      PageOfKey(|pages|, 0);
      assert |pages| * WAKER_PAGE_SIZE !in slab;
      var key: nat :| key !in slab;
      MarksLiveGrow(slab, pages, key, future);
      slab := slab[key := future];
      while key >= |pages| * WAKER_PAGE_SIZE
        invariant |old(pages)| <= |pages| <= PageOf(key).0 + 1 || |pages| == |old(pages)|
        invariant pages[..|old(pages)|] == old(pages)
        invariant forall p :: |old(pages)| <= p < |pages| ==> pages[p] == EMPTY_PAGE
        invariant slab == old(slab)[key := future]
        invariant MarksLive(slab, pages)
        decreases key - |pages| * WAKER_PAGE_SIZE
      {
        MarksLiveGrow(slab, pages, key, future);
        pages := pages + [EMPTY_PAGE];
      }
      var (p, b) := PageOf(key);
      var pg := Initialize(pages[p], b);
      PageOfKey(p, b);
      MarksLiveReplace(slab, pages, p, pg);
      ghost var grown := pages;
      pages := pages[p := pg];
      h := Handle(Some(key));
      forall p' | |old(pages)| <= p' < |grown| ensures grown[p'] == EMPTY_PAGE { }
      if p < |old(pages)| {
        assert grown[p] == grown[..|old(pages)|][p];
      }
      forall q | 0 <= q < |old(pages)| ensures grown[q] == old(pages)[q] {
        assert grown[q] == grown[..|old(pages)|][q];
      }
    }

    /** `Scheduler::take`: the handle's subpage must not have been dropped
        (`assert!`); it is cleared and exactly that key leaves the slab. */
    method Take(h: Handle) returns (f: F)
      requires Valid()
      requires h.key.Some? && h.key.value in slab
      requires !Bit(pages[PageOf(h.key.value).0].dropped, PageOf(h.key.value).1)
      modifies this
      ensures Valid()
      ensures f == old(slab)[h.key.value]
      ensures slab == old(slab) - {h.key.value}
      ensures pages == old(pages)[PageOf(h.key.value).0 := Clear(old(pages)[PageOf(h.key.value).0], PageOf(h.key.value).1)]
    {
      var key := h.key.value;
      var (p, b) := PageOf(key);
      MarksLiveReplace(slab, pages, p, Clear(pages[p], b));
      pages := pages[p := Clear(pages[p], b)];
      MarksLiveRemove(slab, pages, p, b);
      f := slab[key];
      slab := slab - {key};
    }

    /** `Drop for SchedulerHandle`: a handle that still holds its key marks
        that subpage dropped; one whose key was taken does nothing.  The
        drop itself does not look at the slab: dropping a handle whose key
        the slab does not hold marks a bit no key owns, and the next
        `poll` then removes a vacant slab entry, which panics. */
    method DropHandle(h: Handle)
      requires KeysPaged(slab, pages)
      requires h.key.Some? ==> PageOf(h.key.value).0 < |pages|
      modifies this
      ensures KeysPaged(slab, pages)
      ensures slab == old(slab)
      ensures h.key.None? ==> pages == old(pages)
      ensures h.key.Some? ==>
        pages == old(pages)[PageOf(h.key.value).0 := MarkDropped(old(pages)[PageOf(h.key.value).0], PageOf(h.key.value).1)]
      ensures old(MarksLive(slab, pages)) && (h.key.None? || h.key.value in slab) ==> Valid()
      ensures h.key.Some? && h.key.value !in slab ==> !Valid()
    {
      if h.key.Some? {
        var key := h.key.value;
        var (p, b) := PageOf(key);
        if key in slab && MarksLive(slab, pages) {
          MarksLiveReplace(slab, pages, p, MarkDropped(pages[p], b));
        } else if key !in slab {
          DropAbsentKeyBreaksPoll(slab, pages, key);
        }
        pages := pages[p := MarkDropped(pages[p], b)];
      }
    }

    /** `from_raw_handle(key)` as written: it returns no handle when the
        slab holds `key`, and a handle for `key` when it does not. */
    function FromRawHandle(key: nat): (r: Option<Handle>)
      reads this
      requires key !in slab ==> PageOf(key).0 < |pages|
      ensures r.None? <==> key in slab
      ensures r.Some? ==> r.value == Handle(Some(key))
    {
      if key in slab then None else Some(Handle(Some(key)))
    }

    /** `from_raw_handle(key)` as evidently intended: a handle for `key`
        exactly when the slab holds it. */
    function FromRawHandleChecked(key: nat): (r: Option<Handle>)
      reads this
      requires Valid()
      ensures r.Some? <==> key in slab
      ensures r.Some? ==> r.value == Handle(Some(key)) && PageOf(key).0 < |pages|
    {
      if key in slab then Some(Handle(Some(key))) else None
    }

    /** The first inner loop of `Inner::poll` for page `p`: the notified
        bits are taken, and each notified future that is Ready when polled
        is marked completed. */
    method PollNotified(p: nat, isReady: F -> bool)
      requires Valid() && p < |pages|
      modifies this
      ensures Valid()
      ensures slab == old(slab) && |pages| == |old(pages)|
      ensures forall q :: 0 <= q < |pages| && q != p ==> pages[q] == old(pages)[q]
      ensures pages[p].notified == 0 && pages[p].dropped == old(pages)[p].dropped
      ensures forall b :: 0 <= b < WAKER_PAGE_SIZE ==>
                (Bit(pages[p].completed, b) <==>
                 Bit(old(pages)[p].completed, b) || (Bit(old(pages)[p].notified, b) && ReadyAt(slab, isReady, p, b)))
    {
      ghost var pg0 := pages[p];
      // page.take_notified()
      var notified := pages[p].notified;
      var taken := pages[p].(notified := 0);
      forall c | 0 <= c < WAKER_PAGE_SIZE && Marked(taken, c) ensures Marked(pages[p], c) {
        ZeroHasNoBits(c);
      }
      MarksLiveReplace(slab, pages, p, taken);
      pages := pages[p := taken];
      var ixs := IterSetBits(notified);
      var i := 0;
      while i < |ixs|
        invariant 0 <= i <= |ixs|
        invariant slab == old(slab) && |pages| == |old(pages)|
        invariant forall q :: 0 <= q < |pages| && q != p ==> pages[q] == old(pages)[q]
        invariant pages[p].notified == 0 && pages[p].dropped == pg0.dropped
        invariant forall b :: 0 <= b < WAKER_PAGE_SIZE ==>
                    (Bit(pages[p].completed, b) <==>
                     Bit(pg0.completed, b) || (b in ixs[..i] && ReadyAt(slab, isReady, p, b)))
        invariant MarksLive(slab, pages)
      {
        var b := ixs[i];
        var ix := p * WAKER_PAGE_SIZE + b;
        assert b in ixs && Marked(pg0, b);
        ghost var before := pages[p].completed;
        if isReady(slab[ix]) {
          MarksLiveReplace(slab, pages, p, MarkCompleted(pages[p], b));
          pages := pages[p := MarkCompleted(pages[p], b)];
        }
        PollStep(before, pages[p].completed, pg0.completed, slab, isReady, p, ixs[..i], b);
        assert ixs[..i + 1] == ixs[..i] + [b];
        i := i + 1;
      }
      assert ixs[..i] == ixs;
    }

    /** The second inner loop of `Inner::poll` for page `p`: the dropped
        bits are taken, and each dropped key leaves the slab and has its
        subpage cleared. */
    method RemoveDropped(p: nat)
      requires Valid() && p < |pages| && pages[p].notified == 0
      modifies this
      ensures Valid()
      ensures |pages| == |old(pages)|
      ensures forall q :: 0 <= q < |pages| && q != p ==> pages[q] == old(pages)[q]
      ensures pages[p].notified == 0 && pages[p].dropped == 0
      ensures forall b :: 0 <= b < WAKER_PAGE_SIZE ==>
                (Bit(pages[p].completed, b) <==> Bit(old(pages)[p].completed, b) && !Bit(old(pages)[p].dropped, b))
      ensures forall k :: k in slab <==>
                k in old(slab) && !(PageOf(k).0 == p && Bit(old(pages)[p].dropped, PageOf(k).1))
      ensures forall k :: k in slab ==> slab[k] == old(slab)[k]
    {
      ghost var pg0 := pages[p];
      // page.take_dropped()
      var dropped := pages[p].dropped;
      var taken := pages[p].(dropped := 0);
      forall c | 0 <= c < WAKER_PAGE_SIZE && Marked(taken, c) ensures Marked(pages[p], c) {
        ZeroHasNoBits(c);
      }
      MarksLiveReplace(slab, pages, p, taken);
      pages := pages[p := taken];
      var dixs := IterSetBits(dropped);
      var j := 0;
      while j < |dixs|
        invariant 0 <= j <= |dixs|
        invariant |pages| == |old(pages)|
        invariant forall q :: 0 <= q < |pages| && q != p ==> pages[q] == old(pages)[q]
        invariant pages[p].notified == 0 && pages[p].dropped == 0
        invariant forall b :: 0 <= b < WAKER_PAGE_SIZE ==>
                    (Bit(pages[p].completed, b) <==> Bit(pg0.completed, b) && b !in dixs[..j])
        invariant forall k :: k in slab <==>
                    k in old(slab) && !(PageOf(k).0 == p && PageOf(k).1 in dixs[..j])
        invariant forall k :: k in slab ==> slab[k] == old(slab)[k]
        invariant MarksLive(slab, pages)
      {
        var b := dixs[j];
        assert b in dixs;
        ZeroHasNoBits(b);
        var pg := Clear(pages[p], b);
        MarksLiveReplace(slab, pages, p, pg);
        pages := pages[p := pg];
        MarksLiveRemove(slab, pages, p, b);
        DropStep(slab, old(slab), p, dixs[..j], b);
        slab := slab - {p * WAKER_PAGE_SIZE + b};
        assert dixs[..j + 1] == dixs[..j] + [b];
        j := j + 1;
      }
      assert dixs[..j] == dixs;
    }

    /** One iteration of the page loop of `Inner::poll`, for page `p`. */
    method PollPage(p: nat, isReady: F -> bool)
      requires Valid() && p < |pages|
      modifies this
      ensures Valid()
      ensures |pages| == |old(pages)|
      ensures forall q :: 0 <= q < |pages| && q != p ==> pages[q] == old(pages)[q]
      ensures pages[p].notified == 0 && pages[p].dropped == 0
      ensures forall b :: 0 <= b < WAKER_PAGE_SIZE ==>
                (Bit(pages[p].completed, b) <==>
                 CompletedAfterPoll(old(pages)[p], b, ReadyAt(old(slab), isReady, p, b)))
      ensures forall k :: k in slab <==>
                k in old(slab) && !(PageOf(k).0 == p && Bit(old(pages)[p].dropped, PageOf(k).1))
      ensures forall k :: k in slab ==> slab[k] == old(slab)[k]
    {
      PollNotified(p, isReady);
      RemoveDropped(p);
    }

    /** `Inner::poll`: every page in turn has its notified futures polled
        (those that are Ready become completed) and its dropped futures
        removed from the slab and their subpages cleared. */
    method Poll(isReady: F -> bool)
      requires Valid()
      modifies this
      ensures Valid()
      ensures |pages| == |old(pages)|
      ensures forall q :: 0 <= q < |pages| ==> pages[q].notified == 0 && pages[q].dropped == 0
      ensures forall q, b :: 0 <= q < |pages| && 0 <= b < WAKER_PAGE_SIZE ==>
                (Bit(pages[q].completed, b) <==>
                 CompletedAfterPoll(old(pages)[q], b, ReadyAt(old(slab), isReady, q, b)))
      ensures forall k :: k in slab <==>
                k in old(slab) && !Bit(old(pages)[PageOf(k).0].dropped, PageOf(k).1)
      ensures forall k :: k in slab ==> slab[k] == old(slab)[k]
    {
      var p := 0;
      while p < |pages|
        invariant Valid()
        invariant 0 <= p <= |pages| == |old(pages)|
        invariant forall q :: p <= q < |pages| ==> pages[q] == old(pages)[q]
        invariant forall q :: 0 <= q < p ==> pages[q].notified == 0 && pages[q].dropped == 0
        invariant forall q, b :: 0 <= q < p && 0 <= b < WAKER_PAGE_SIZE ==>
                    (Bit(pages[q].completed, b) <==>
                     CompletedAfterPoll(old(pages)[q], b, ReadyAt(old(slab), isReady, q, b)))
        invariant forall k :: k in slab <==>
                    k in old(slab) && !(PageOf(k).0 < p && Bit(old(pages)[PageOf(k).0].dropped, PageOf(k).1))
        invariant forall k :: k in slab ==> slab[k] == old(slab)[k]
      {
        ghost var before := slab;
        PollPage(p, isReady);
        forall b | 0 <= b < WAKER_PAGE_SIZE
          ensures ReadyAt(before, isReady, p, b) == ReadyAt(old(slab), isReady, p, b)
        {
          PageOfKey(p, b);
        }
        p := p + 1;
      }
    }
  }

  /** Marking dropped the subpage of a key the slab does not hold leaves
      a set bit that no key owns, so `Valid` (and with it the
      precondition of `poll`) fails. */
  lemma DropAbsentKeyBreaksPoll<F>(slab: map<nat, F>, pages: seq<WakerPage>, key: nat)
    requires key !in slab && PageOf(key).0 < |pages|
    ensures var (p, b) := PageOf(key);
      !MarksLive(slab, pages[p := MarkDropped(pages[p], b)])
  {
    var (p, b) := PageOf(key);
    var pg := MarkDropped(pages[p], b);
    assert Bit(pg.dropped, b);
    assert Marked(pages[p := pg][p], b);
  }

  /** As written, `from_raw_handle` hands out a handle exactly for the keys
      the slab does not hold, and dropping such a handle leaves a
      scheduler `poll` cannot run on. */
  lemma RawHandleOfAbsentKeyBreaksPoll<F>(s: Scheduler<F>, key: nat)
    requires s.Valid() && key !in s.slab && PageOf(key).0 < |s.pages|
    ensures s.FromRawHandle(key) == Some(Handle(Some(key)))
    ensures var (p, b) := PageOf(key);
      !MarksLive(s.slab, s.pages[p := MarkDropped(s.pages[p], b)])
  {
    DropAbsentKeyBreaksPoll(s.slab, s.pages, key);
  }

  /** The defect of `from_raw_handle` as written: the key of a live handle,
      taken out with `into_raw`, gives back no handle. */
  lemma FromRawHandleRejectsLiveKey<F>(s: Scheduler<F>, h: Handle)
    requires s.Valid() && h.key.Some? && h.key.value in s.slab
    ensures s.FromRawHandle(IntoRaw(h).0) == None
  {
  }

  /** With the intended test, `into_raw` followed by `from_raw_handle`
      gives back the handle, and that handle may be dropped or taken. */
  lemma FromRawHandleRoundTrip<F>(s: Scheduler<F>, h: Handle)
    requires s.Valid() && h.key.Some? && h.key.value in s.slab
    ensures s.FromRawHandleChecked(IntoRaw(h).0) == Some(h)
  {
  }
}
