/** The analyze-group view: the collection with its current comparator, the
    three sort buttons, and the selection of a group's representative comments
    for the carousel, with the table from carousel position to comment id. */
module AnalyzeGroup {
  import opened Common
  import opened Comparators

  /** The three sort buttons, `#sortAgree`, `#sortDisagree`, `#sortDivisive`. */
  datatype SortButton = SortAgreeButton | SortDisagreeButton | SortDivisiveButton

  /** The view's state: the comments of its collection in their current order,
      the comparator that the collection sorts with, and the buttons that
      carry the class "enabled". */
  class AnalyzeGroupView {
    var models: seq<Comment>
    var comparator: Mode
    var enabled: set<SortButton>

    /** `initialize`: the view takes the collection and sets its comparator to
        Agree. Which buttons are enabled at first is up to the template. */
    constructor (collection: seq<Comment>, templateEnabled: set<SortButton>)
      ensures models == collection && comparator == Agree
      ensures enabled == templateEnabled
    {
      models := collection;
      comparator := Agree;
      enabled := templateEnabled;
    }

    /** `selectSortModes`: clears "enabled" from all three buttons and sets it
        on the chosen one. */
    method SelectSortModes(chosen: SortButton)
      modifies this
      ensures enabled == {chosen}
      ensures models == old(models) && comparator == old(comparator)
    {
      enabled := {};
      enabled := enabled + {chosen};
    }

    /** `sort`: the collection sorts itself with its current comparator. */
    method Sort()
      modifies this
      ensures models == SortBy(comparator, old(models))
      ensures multiset(models) == multiset(old(models))
      ensures Sorted(comparator, models)
      ensures comparator == old(comparator) && enabled == old(enabled)
    {
      SortBySorted(comparator, models);
      models := SortBy(comparator, models);
    }

    method SortAgree()
      modifies this
      ensures comparator == Agree && enabled == {SortAgreeButton}
      ensures models == SortBy(Agree, old(models))
      ensures multiset(models) == multiset(old(models)) && Sorted(Agree, models)
    {
      comparator := Agree;
      Sort();
      SelectSortModes(SortAgreeButton);
    }

    method SortDisagree()
      modifies this
      ensures comparator == Disagree && enabled == {SortDisagreeButton}
      ensures models == SortBy(Disagree, old(models))
      ensures multiset(models) == multiset(old(models)) && Sorted(Disagree, models)
    {
      comparator := Disagree;
      Sort();
      SelectSortModes(SortDisagreeButton);
    }

    method SortDivisive()
      modifies this
      ensures comparator == Divisive && enabled == {SortDivisiveButton}
      ensures models == SortBy(Divisive, old(models))
      ensures multiset(models) == multiset(old(models)) && Sorted(Divisive, models)
    {
      comparator := Divisive;
      Sort();
      SelectSortModes(SortDivisiveButton);
    }
  }

  /** `_.indexBy(comments, "id")`: each id present in the collection maps to a
      comment with that id (the last one, when ids repeat). */
  function IndexById(models: seq<Comment>): (r: map<int, Comment>)
    ensures forall t :: t in r <==> exists i :: 0 <= i < |models| && models[i].tid == t
    ensures forall t | t in r :: r[t].tid == t && r[t] in models
  {
    if models == [] then map[]
    else
      var last := models[|models| - 1];
      var rest := IndexById(models[..|models| - 1]);
      assert forall c | c in models[..|models| - 1] :: c in models;
      rest[last.tid := last]
  }

  /** `_.pluck(repness, "tid")`. */
  function Tids(entries: seq<RepnessEntry>): (r: seq<int>)
    ensures |r| == |entries|
    ensures forall i | 0 <= i < |entries| :: r[i] == entries[i].tid
  {
    seq(|entries|, i requires 0 <= i < |entries| => entries[i].tid)
  }

  /** The tids that have a comment, in the order of `tids` (repeats kept). */
  function PresentTids(tids: seq<int>, index: map<int, Comment>): (r: seq<int>)
    ensures forall t :: t in r <==> t in tids && t in index
    ensures |r| <= |tids|
  {
    if tids == [] then []
    else (if tids[0] in index then [tids[0]] else []) + PresentTids(tids[1..], index)
  }

  /** Filtering commutes with concatenation: each tid's place in the result
      follows its place in the repness list. */
  lemma {:induction false} PresentTidsAppend(a: seq<int>, b: seq<int>, index: map<int, Comment>)
    ensures PresentTids(a + b, index) == PresentTids(a, index) + PresentTids(b, index)
  {
    if a == [] {
      assert a + b == b;
    } else {
      assert (a + b)[0] == a[0];
      assert (a + b)[1..] == a[1..] + b;
      PresentTidsAppend(a[1..], b, index);
    }
  }

  lemma PresentTidsSingleton(t: int, index: map<int, Comment>)
    ensures PresentTids([t], index) == if t in index then [t] else []
  {
    assert [t][1..] == [];
  }

  /** What the carousel is built from: the comments in display order, the
      table from carousel position to tid, and the `data-idx` written into
      the k-th slide. */
  datatype Carousel = Carousel(comments: seq<Comment>, indexToTid: seq<int>, dataIdx: seq<int>)

  /** `_.filter(tids, ...)`: keeps the tids that have a comment. */
  method KeepPresent(tids: seq<int>, index: map<int, Comment>) returns (kept: seq<int>)
    ensures kept == PresentTids(tids, index)
  {
    kept := [];
    var i := 0;
    while i < |tids|
      invariant 0 <= i <= |tids|
      invariant kept == PresentTids(tids[..i], index)
    {
      PresentTidsAppend(tids[..i], [tids[i]], index);
      PresentTidsSingleton(tids[i], index);
      assert tids[..i + 1] == tids[..i] + [tids[i]];
      if tids[i] in index {
        kept := kept + [tids[i]];
      }
      i := i + 1;
    }
    assert tids[..i] == tids;
  }

  /** The slide loop: fetches each kept tid's comment, pushes its tid onto
      `indexToTid` and gives the slide the index of that entry. */
  method BuildSlides(kept: seq<int>, index: map<int, Comment>) returns (c: Carousel)
    requires forall k | 0 <= k < |kept| :: kept[k] in index
    requires forall t | t in index :: index[t].tid == t
    ensures |c.comments| == |c.indexToTid| == |c.dataIdx| == |kept|
    ensures c.indexToTid == kept
    ensures forall k | 0 <= k < |kept| :: c.comments[k] == index[kept[k]] && c.dataIdx[k] == k
  {
    var comments: seq<Comment> := [];
    var indexToTid: seq<int> := [];
    var dataIdx: seq<int> := [];
    var k := 0;
    while k < |kept|
      invariant 0 <= k <= |kept|
      invariant |comments| == |indexToTid| == |dataIdx| == k
      invariant indexToTid == kept[..k]
      invariant forall j | 0 <= j < k :: comments[j] == index[kept[j]] && dataIdx[j] == j
    {
      var comment := index[kept[k]];
      assert comment.tid == kept[k];
      comments := comments + [comment];
      indexToTid := indexToTid + [comment.tid];
      dataIdx := dataIdx + [|indexToTid| - 1];
      assert kept[..k + 1] == kept[..k] + [kept[k]];
      k := k + 1;
    }
    assert kept[..k] == kept;
    c := Carousel(comments, indexToTid, dataIdx);
  }

  /** The selection inside `renderWithCarousel`: a missing or empty repness list
      stops before anything is built; otherwise the repness tids that have a
      comment are kept in repness order, each is looked up, and its tid is
      pushed onto `indexToTid` as its slide is made. */
  method RenderWithCarousel(repness: Option<seq<RepnessEntry>>, models: seq<Comment>)
    returns (r: Option<Carousel>)
    ensures r.None? <==> repness.None? || repness.value == []
    ensures r.Some? ==>
      var index := IndexById(models);
      var c := r.value;
      && c.indexToTid == PresentTids(Tids(repness.value), index)
      && |c.comments| == |c.indexToTid| == |c.dataIdx|
      && forall k | 0 <= k < |c.comments| ::
           && c.indexToTid[k] in index
           && c.comments[k] == index[c.indexToTid[k]]
           && c.comments[k].tid == c.indexToTid[k]
           && c.comments[k] in models
           && c.dataIdx[k] == k
  {
    if repness.None? || |repness.value| == 0 {
      return None;
    }
    var index := IndexById(models);
    var kept := KeepPresent(Tids(repness.value), index);
    var c := BuildSlides(kept, index);
    assert forall k | 0 <= k < |kept| :: kept[k] in kept;
    return Some(c);
  }
}
