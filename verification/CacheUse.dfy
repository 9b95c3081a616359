/** What a pool owes its clients about the order of use of its pages, about the page whose frame it takes, and
    about what it writes to disk: relations between the state before a call and the state after it. */
module CacheUse {
  import opened Keys
  import opened LruCache
  import opened FrameManager

  /** No other page of `candidates` was used longer ago. */
  ghost predicate Oldest(victim: FrameId, candidates: set<FrameId>, history: seq<FrameId>) {
    victim in candidates && forall i :: i in candidates ==> LastUse(history, victim) <= LastUse(history, i)
  }

  /** A frame is taken from a page exactly when that is needed, and from the one used longest ago. */
  ghost predicate Chosen(victim: Option<FrameId>, needed: bool, candidates: set<FrameId>, history: seq<FrameId>) {
    (victim.Some? <==> needed) && (victim.Some? ==> Oldest(victim.value, candidates, history))
  }

  ghost function Picked(victim: Option<FrameId>): set<FrameId> {
    if victim.Some? then {victim.value} else {}
  }

  /** Looking a page up to take its frame away is a use of it, too. */
  ghost function Uses(victim: Option<FrameId>): seq<FrameId> {
    if victim.Some? then [victim.value] else []
  }

  /** The page was used later than any other one of the cache. */
  ghost predicate Latest(cached: set<FrameId>, history: seq<FrameId>, id: FrameId) {
    forall i {:trigger LastUse(history, i)} :: i in cached && i != id ==> LastUse(history, i) < LastUse(history, id)
  }

  /** All pages of the cache but `id` were last used when they were before. */
  ghost predicate OthersKept(cached: set<FrameId>, before: seq<FrameId>, history: seq<FrameId>, id: FrameId) {
    forall i {:trigger LastUse(history, i)} :: i in cached && i != id ==> LastUse(history, i) == LastUse(before, i)
  }

  /** The last uses after some more of `id`, and of pages that are not cached. */
  lemma Recency(cached: set<FrameId>, before: seq<FrameId>, more: seq<FrameId>, id: FrameId)
    requires forall i :: i in more ==> i == id || i !in cached
    ensures OthersKept(cached, before, before + more, id)
    ensures more != [] && more[|more| - 1] == id ==> Latest(cached, before + more, id)
  {
    forall i {:trigger LastUse(before + more, i)} | i in cached && i != id
      ensures LastUse(before + more, i) == LastUse(before, i)
    {
      UsesAppend(before, more, i);
    }
    if more != [] && more[|more| - 1] == id {
      assert (before + more)[|before| + |more| - 1] == id;
    }
  }

  lemma {:induction false} UsesAppend(before: seq<FrameId>, more: seq<FrameId>, i: FrameId)
    requires i !in more
    ensures LastUse(before + more, i) == LastUse(before, i)
  {
    if more == [] {
      assert before + more == before;
    } else {
      var front, last := more[..|more| - 1], more[|more| - 1];
      assert before + more == before + front + [last];
      LastUseExtends(before + front, last, i);
      UsesAppend(before, front, i);
    }
  }

  /** One use more of the same page, which is then no longer cached. */
  lemma OneMoreUse(cached: set<FrameId>, before: seq<FrameId>, history: seq<FrameId>, id: FrameId)
    requires OthersKept(cached, before, history, id)
    ensures OthersKept(cached - {id}, before, history + [id], id)
  {
    forall i {:trigger LastUse(history + [id], i)} | i in cached && i != id
      ensures LastUse(history + [id], i) == LastUse(before, i)
    {
      LastUseExtends(history, id, i);
    }
  }

  /** The cache after a frame was taken from the victim and given to a page, which keeps it unless reading the
      page failed. */
  ghost function Replaced(before: map<FrameId, Frame>, victim: Option<FrameId>, id: FrameId, f: Frame?): map<FrameId, Frame> {
    (before - Picked(victim)) + if f == null then map[] else map[id := f]
  }

  lemma ReplacedMeans(before: map<FrameId, Frame>, victim: Option<FrameId>, id: FrameId, f: Frame)
    requires id !in before
    ensures Replaced(before, victim, id, f) - {id} == Replaced(before, victim, id, null)
    ensures Replaced(before, victim, id, f) == (before - Picked(victim))[id := f]
    ensures Replaced(before, None, id, null) == before
  {
  }

  lemma ReplacedSame(before: map<FrameId, Frame>, id: FrameId)
    ensures id in before ==> Replaced(before, None, id, before[id]) == before
    ensures Replaced(before, None, id, null) == before
  {
  }

  /** Nothing was written to the files but what a page held that nobody had pinned. */
  ghost predicate WroteBack(before: map<FrameId, Page>, after: map<FrameId, Page>, unpinned: imap<FrameId, Page>) {
    forall i {:trigger after[i]} {:trigger before[i]} :: i in before ==> i in after && (after[i] == before[i] || (i in unpinned && after[i] == unpinned[i]))
  }

  lemma NothingWritten(files: map<FrameId, Page>, unpinned: imap<FrameId, Page>)
    ensures WroteBack(files, files, unpinned)
  {
  }

  lemma MoreWritten(before: map<FrameId, Page>, after: map<FrameId, Page>, unpinned: imap<FrameId, Page>, id: FrameId, page: Page)
    requires WroteBack(before, after, unpinned) && id !in before
    ensures WroteBack(before, after[id := page], unpinned)
  {
  }
}
