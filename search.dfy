/**
 The profile-collecting loop of `search_profiles` in scraper.py.

 The browser is abstracted as a function from a URL to a `Page`. A page is
 read as a list of snapshots: at every turn of the loop the source reads all
 result cards currently on the page, scrolls to the bottom and reads the new
 page height. Snapshot `i` holds the cards of turn `i` and the height read
 after its scroll; `initialHeight` is the height read before the loop.
 */
module ProfileSearch {
  import opened Wrappers
  import opened PyStr

  const SearchBase := "https://www.linkedin.com/search/results/people/?keywords="
  const ProfilePrefix := "https://www.linkedin.com/in/"

  /** The `{"name": …, "url": …}` record the source collects. */
  datatype Profile = Profile(name: string, url: string)

  /** One result card: either its `a.app-aware-link` anchor, with the link
      text and the `href` attribute (absent when the attribute is missing), or
      `NoAnchor` when the anchor lookup raised. */
  datatype Card = NoAnchor | Anchor(text: string, href: Option<string>)

  datatype Snapshot = Snapshot(cards: seq<Card>, heightAfterScroll: int)

  datatype Page = Page(initialHeight: int, snapshots: seq<Snapshot>)

  /** The search URL for a keyword: spaces become `%20`. */
  function SearchUrl(keyword: string): (url: string)
    ensures StartsWith(url, SearchBase)
    ensures url[|SearchBase|..] == EncodeSpaces(keyword)
  {
    var query := EncodeSpaces(keyword);
    assert (SearchBase + query)[|SearchBase|..] == query;
    SearchBase + query
  }

  /** The query part of the URL has no space left in it, and reads back as
      the keyword when the keyword has no `%` of its own. */
  lemma SearchQueryRoundTrip(keyword: string)
    ensures ' ' !in SearchUrl(keyword)[|SearchBase|..]
    ensures '%' !in keyword ==> DecodeSpaces(SearchUrl(keyword)[|SearchBase|..]) == keyword
  {
    if '%' !in keyword {
      DecodeEncodeSpaces(keyword);
    }
  }

  /** What a kept profile looks like. */
  predicate Admissible(p: Profile) {
    && p.name != [] && Trimmed(p.name)
    && StartsWith(p.url, ProfilePrefix) && '?' !in p.url
  }

  /** The profile one card yields, if any: the stripped link text and the
      `href` cut at its first `?`; the card is skipped when either lookup
      raises, the name is empty or the URL is not a profile URL. */
  function Admit(c: Card): (r: Option<Profile>)
    ensures r.Some? ==> Admissible(r.value)
    ensures r.Some? ==> c.Anchor? && c.href.Some? && StartsWith(c.href.value, r.value.url)
  {
    match c
    case NoAnchor => None
    case Anchor(text, href) =>
      if href.None? then None
      else
        var name := Strip(text);
        var url := BeforeFirst(href.value, '?');
        if name != [] && url != [] && StartsWith(url, ProfilePrefix) then Some(Profile(name, url)) else None
  }

  /** Exactly the cards whose anchor has an `href`, whose stripped text is
      non-empty and whose `href` cut at the first `?` is a profile URL are
      kept, and the profile is that text and that URL. */
  lemma AdmitMeaning(c: Card)
    ensures Admit(c).Some? <==>
      c.Anchor? && c.href.Some? && Strip(c.text) != [] && StartsWith(BeforeFirst(c.href.value, '?'), ProfilePrefix)
    ensures Admit(c).Some? ==> Admit(c).value == Profile(Strip(c.text), BeforeFirst(c.href.value, '?'))
  {
  }

  /** One card of the inner loop: nothing happens once `limit` profiles are
      held (the loop broke out), otherwise an admitted profile is appended
      unless an equal one is already held. */
  function Step(found: seq<Profile>, c: Card, limit: int): seq<Profile> {
    if |found| >= limit then found else AddAdmitted(found, c)
  }

  /** `found` with the card's profile appended, unless it yields none or an
      equal one is already there (`if profile not in profiles`). */
  function AddAdmitted(found: seq<Profile>, c: Card): seq<Profile> {
    Offer(found, Admit(c))
  }

  /** `found` with the offered element appended unless it is absent or
      already held. */
  function Offer<T(==)>(found: seq<T>, o: Option<T>): seq<T> {
    match o
    case None => found
    case Some(x) => Push(found, x)
  }

  function Push<T(==)>(xs: seq<T>, x: T): seq<T> {
    if x in xs then xs else xs + [x]
  }

  /** The inner `for card in cards` loop. */
  function AddCards(found: seq<Profile>, cards: seq<Card>, limit: int): seq<Profile> {
    if cards == [] then found
    else Step(AddCards(found, cards[..|cards| - 1], limit), cards[|cards| - 1], limit)
  }

  /** The outer `while len(profiles) < limit` loop, from snapshot list `snaps`
      on, with `lastHeight` the height last read. A run out of snapshots means
      the page has stopped growing. */
  function Gather(found: seq<Profile>, snaps: seq<Snapshot>, lastHeight: int, limit: int): seq<Profile>
    decreases |snaps|
  {
    if |found| >= limit || snaps == [] then found
    else
      var next := AddCards(found, snaps[0].cards, limit);
      if snaps[0].heightAfterScroll == lastHeight then next
      else Gather(next, snaps[1..], snaps[0].heightAfterScroll, limit)
  }

  /** What `search_profiles(driver, keyword, limit)` returns for the page. */
  function SearchResult(page: Page, limit: int): seq<Profile> {
    SliceTo(Gather([], page.snapshots, page.initialHeight, limit), limit)
  }

  // ---------------------------------------------------------------------
  // An independent description of the result: the first `limit` distinct
  // admissible profiles, in the order first seen, among the snapshots read
  // before the page height stopped changing.
  // ---------------------------------------------------------------------

  predicate NoDuplicates<T(==)>(xs: seq<T>) {
    forall i, j :: 0 <= i < j < |xs| ==> xs[i] != xs[j]
  }

  /** At most the first `n` elements. */
  function Take<T>(xs: seq<T>, n: int): (r: seq<T>)
    ensures |r| <= |xs| && r == xs[..|r|]
    ensures |r| == if n <= 0 then 0 else if n < |xs| then n else |xs|
  {
    if n <= 0 then [] else if n < |xs| then xs[..n] else xs
  }

  /** For a non-negative count the cap is Python's `xs[:n]`. */
  lemma TakeIsSliceTo<T>(xs: seq<T>, n: int)
    requires n >= 0
    ensures Take(xs, n) == SliceTo(xs, n)
  {
  }

  /** `found` followed by the elements of `xs` it does not already hold,
      each once, in the order they come. */
  function Extend<T(==)>(found: seq<T>, xs: seq<T>): seq<T> {
    if xs == [] then found
    else
      Push(Extend(found, xs[..|xs| - 1]), xs[|xs| - 1])
  }

  function Distinct<T(==)>(xs: seq<T>): seq<T> {
    Extend([], xs)
  }

  /** The admissible profiles of a list of cards, in card order. */
  function Admitted(cards: seq<Card>): seq<Profile> {
    if cards == [] then []
    else
      var prev := Admitted(cards[..|cards| - 1]);
      match Admit(cards[|cards| - 1])
      case None => prev
      case Some(p) => prev + [p]
  }

  /** Every admissible profile of a list of snapshots, in reading order. */
  function Stream(snaps: seq<Snapshot>): seq<Profile> {
    if snaps == [] then [] else Admitted(snaps[0].cards) + Stream(snaps[1..])
  }

  /** How many snapshots are read when only the height rule stops the loop:
      up to and including the first one whose scroll leaves the height as it
      was. */
  function HeightStop(snaps: seq<Snapshot>, lastHeight: int): (n: nat)
    ensures n <= |snaps|
    ensures snaps != [] ==> n >= 1
  {
    if snaps == [] then 0
    else if snaps[0].heightAfterScroll == lastHeight then 1
    else 1 + HeightStop(snaps[1..], snaps[0].heightAfterScroll)
  }

  /** The height before snapshot `i` is read: the initial one, then the one
      read after the previous scroll. */
  function HeightBefore(snaps: seq<Snapshot>, initialHeight: int, i: nat): int
    requires i <= |snaps|
  {
    if i == 0 then initialHeight else snaps[i - 1].heightAfterScroll
  }

  /** The height rule stops at the first snapshot whose scroll leaves the
      height unchanged, or at the end of the page. */
  lemma {:induction false} HeightStopMeaning(snaps: seq<Snapshot>, h: int)
    ensures forall i :: 0 <= i < HeightStop(snaps, h) - 1 ==>
      snaps[i].heightAfterScroll != HeightBefore(snaps, h, i)
    ensures HeightStop(snaps, h) == |snaps| ||
      snaps[HeightStop(snaps, h) - 1].heightAfterScroll == HeightBefore(snaps, h, HeightStop(snaps, h) - 1)
    decreases |snaps|
  {
    if snaps != [] && snaps[0].heightAfterScroll != h {
      var rest := snaps[1..];
      HeightStopMeaning(rest, snaps[0].heightAfterScroll);
      forall i | 0 < i < HeightStop(snaps, h)
        ensures HeightBefore(snaps, h, i) == HeightBefore(rest, snaps[0].heightAfterScroll, i - 1)
      {
      }
    }
  }

  lemma {:induction false} AdmittedAreAdmissible(cards: seq<Card>)
    ensures forall p :: p in Admitted(cards) ==> Admissible(p)
  {
    if cards != [] {
      AdmittedAreAdmissible(cards[..|cards| - 1]);
    }
  }

  lemma {:induction false} StreamIsAdmissible(snaps: seq<Snapshot>)
    ensures forall p :: p in Stream(snaps) ==> Admissible(p)
  {
    if snaps != [] {
      AdmittedAreAdmissible(snaps[0].cards);
      StreamIsAdmissible(snaps[1..]);
    }
  }

  lemma {:induction false} ExtendKeepsPrefix<T>(found: seq<T>, xs: seq<T>)
    ensures |Extend(found, xs)| >= |found| && Extend(found, xs)[..|found|] == found
  {
    if xs != [] {
      ExtendKeepsPrefix(found, xs[..|xs| - 1]);
    }
  }

  lemma {:induction false} ExtendAppend<T>(found: seq<T>, xs: seq<T>, ys: seq<T>)
    ensures Extend(Extend(found, xs), ys) == Extend(found, xs + ys)
    decreases |ys|
  {
    if ys != [] {
      var zs := xs + ys;
      assert zs[..|zs| - 1] == xs + ys[..|ys| - 1];
      assert zs[|zs| - 1] == ys[|ys| - 1];
      ExtendAppend(found, xs, ys[..|ys| - 1]);
    } else {
      assert xs + ys == xs;
    }
  }

  lemma {:induction false} ExtendNoDuplicates<T>(found: seq<T>, xs: seq<T>)
    requires NoDuplicates(found)
    ensures NoDuplicates(Extend(found, xs))
    ensures forall x :: x in Extend(found, xs) <==> x in found || x in xs
  {
    if xs != [] {
      var init := xs[..|xs| - 1];
      ExtendNoDuplicates(found, init);
      assert xs == init + [xs[|xs| - 1]];
    }
  }

  /** Capping at `limit` after the fact loses nothing that capping before
      would keep. */
  lemma TakeExtendTake<T>(d: seq<T>, xs: seq<T>, limit: int)
    ensures Take(Extend(Take(d, limit), xs), limit) == Take(Extend(d, xs), limit)
  {
    ExtendKeepsPrefix(d, xs);
    ExtendKeepsPrefix(Take(d, limit), xs);
    if limit > 0 && limit < |d| {
      assert Take(Extend(Take(d, limit), xs), limit) == d[..limit];
      assert Take(Extend(d, xs), limit) == Extend(d, xs)[..|d|][..limit];
    }
  }

  /** Offering one more element to `Extend` is extending by it. */
  lemma ExtendOffer<T>(found: seq<T>, xs: seq<T>, o: Option<T>)
    ensures Extend(found, xs + (if o.Some? then [o.value] else [])) == Offer(Extend(found, xs), o)
  {
    if o.Some? {
      var ys := xs + [o.value];
      assert ys[..|ys| - 1] == xs;
    } else {
      assert xs + [] == xs;
    }
  }

  lemma ExtendPushAdmitted(found: seq<Profile>, init: seq<Card>, c: Card)
    ensures Extend(found, Admitted(init + [c])) == AddAdmitted(Extend(found, Admitted(init)), c)
  {
    var cards := init + [c];
    assert cards[..|cards| - 1] == init && cards[|cards| - 1] == c;
    var o := Admit(c);
    assert Admitted(cards) == Admitted(init) + (if o.Some? then [o.value] else []);
    ExtendOffer(found, Admitted(init), o);
  }

  /** Offering one element under the cap is capping after the offer. */
  lemma OfferOfTake<T>(e: seq<T>, o: Option<T>, limit: int)
    ensures var t := Take(e, limit);
      (if |t| >= limit then t else Offer(t, o)) == Take(Offer(e, o), limit)
  {
    var t := Take(e, limit);
    if o.Some? {
      var p := o.value;
      if |t| >= limit {
        if limit > 0 {
          assert t == e[..limit];
          assert Push(e, p)[..|e|] == e;
          assert Push(e, p)[..limit] == e[..limit];
        }
      } else {
        assert t == e;
        assert |Push(e, p)| <= limit;
      }
    }
  }

  /** One card, whether or not the cap was already reached. */
  lemma StepOfTake(e: seq<Profile>, c: Card, limit: int)
    ensures Step(Take(e, limit), c, limit) == Take(AddAdmitted(e, c), limit)
  {
    OfferOfTake(e, Admit(c), limit);
  }

  /** The inner card loop is "append the new admissible profiles, then keep
      the first `limit`". */
  lemma {:induction false} AddCardsIsCappedExtend(found: seq<Profile>, cards: seq<Card>, limit: int)
    requires |found| <= limit || found == []
    ensures AddCards(found, cards, limit) == Take(Extend(found, Admitted(cards)), limit)
  {
    if cards == [] {
      assert Take(found, limit) == found;
    } else {
      var init := cards[..|cards| - 1];
      var c := cards[|cards| - 1];
      assert cards == init + [c];
      AddCardsIsCappedExtend(found, init, limit);
      StepOfTake(Extend(found, Admitted(init)), c, limit);
      ExtendPushAdmitted(found, init, c);
    }
  }

  /** Once `limit` profiles are held, the rest of a batch changes nothing. */
  lemma {:induction false} AddCardsWhenFull(found: seq<Profile>, cards: seq<Card>, limit: int)
    requires |found| >= limit
    ensures AddCards(found, cards, limit) == found
  {
    if cards != [] {
      AddCardsWhenFull(found, cards[..|cards| - 1], limit);
    }
  }

  lemma AddCardsNext(found: seq<Profile>, cards: seq<Card>, j: nat, limit: int)
    requires j < |cards|
    ensures AddCards(found, cards[..j + 1], limit) == Step(AddCards(found, cards[..j], limit), cards[j], limit)
  {
    assert cards[..j + 1][..j] == cards[..j];
  }

  lemma {:induction false} AddCardsSplit(found: seq<Profile>, cards: seq<Card>, k: nat, limit: int)
    requires k <= |cards|
    requires |AddCards(found, cards[..k], limit)| >= limit
    ensures AddCards(found, cards, limit) == AddCards(found, cards[..k], limit)
    decreases |cards| - k
  {
    if k < |cards| {
      var init := cards[..|cards| - 1];
      assert init[..k] == cards[..k];
      AddCardsSplit(found, init, k, limit);
    } else {
      assert cards[..k] == cards;
    }
  }

  lemma {:induction false} StreamPrefixStep(snaps: seq<Snapshot>, n: nat)
    requires 0 < n <= |snaps|
    ensures Stream(snaps[..n]) == Admitted(snaps[0].cards) + Stream(snaps[1..][..n - 1])
  {
    assert snaps[..n][0] == snaps[0];
    assert snaps[..n][1..] == snaps[1..][..n - 1];
  }

  /** Once the cap is reached, later profiles do not change the first
      `limit` distinct ones. */
  lemma CappedDistinctSettled(seen: seq<Profile>, more: seq<Profile>, limit: int)
    requires |Take(Distinct(seen), limit)| >= limit
    ensures Take(Distinct(seen + more), limit) == Take(Distinct(seen), limit)
  {
    ExtendAppend([], seen, more);
    ExtendKeepsPrefix(Distinct(seen), more);
  }

  /** Reading one more batch of cards from the first `limit` distinct
      profiles of `seen` gives those of `seen` and the batch together. */
  lemma CappedDistinctStep(seen: seq<Profile>, cards: seq<Card>, limit: int)
    ensures AddCards(Take(Distinct(seen), limit), cards, limit) == Take(Distinct(seen + Admitted(cards)), limit)
  {
    AddCardsIsCappedExtend(Take(Distinct(seen), limit), cards, limit);
    TakeExtendTake(Distinct(seen), Admitted(cards), limit);
    ExtendAppend([], seen, Admitted(cards));
  }

  /** The snapshot count of the height rule, one snapshot later. */
  lemma StreamAfterFirst(snaps: seq<Snapshot>, lastHeight: int)
    requires snaps != [] && snaps[0].heightAfterScroll != lastHeight
    ensures HeightStop(snaps, lastHeight) == 1 + HeightStop(snaps[1..], snaps[0].heightAfterScroll)
    ensures Stream(snaps[..HeightStop(snaps, lastHeight)])
         == Admitted(snaps[0].cards) + Stream(snaps[1..][..HeightStop(snaps[1..], snaps[0].heightAfterScroll)])
  {
    StreamPrefixStep(snaps, HeightStop(snaps, lastHeight));
  }

  lemma StreamOfLast(snaps: seq<Snapshot>, lastHeight: int)
    requires snaps != [] && snaps[0].heightAfterScroll == lastHeight
    ensures Stream(snaps[..HeightStop(snaps, lastHeight)]) == Admitted(snaps[0].cards)
  {
    StreamPrefixStep(snaps, 1);
    assert snaps[1..][..0] == [];
    assert Admitted(snaps[0].cards) + [] == Admitted(snaps[0].cards);
  }

  /** The loop body for one snapshot when the cap is not yet reached. */
  lemma GatherOnce(found: seq<Profile>, snaps: seq<Snapshot>, lastHeight: int, limit: int)
    requires snaps != [] && |found| < limit
    ensures snaps[0].heightAfterScroll == lastHeight ==>
      Gather(found, snaps, lastHeight, limit) == AddCards(found, snaps[0].cards, limit)
    ensures snaps[0].heightAfterScroll != lastHeight ==>
      Gather(found, snaps, lastHeight, limit)
        == Gather(AddCards(found, snaps[0].cards, limit), snaps[1..], snaps[0].heightAfterScroll, limit)
  {
  }

  /** The outer loop, described without its state: continuing from the first
      `limit` distinct profiles of `seen` gives the first `limit` distinct
      profiles of `seen` followed by what the remaining snapshots show, up to
      the height stop. */
  lemma {:induction false} GatherIsCappedDistinct(seen: seq<Profile>, snaps: seq<Snapshot>, lastHeight: int, limit: int)
    ensures Gather(Take(Distinct(seen), limit), snaps, lastHeight, limit)
         == Take(Distinct(seen + Stream(snaps[..HeightStop(snaps, lastHeight)])), limit)
    decreases |snaps|, 2
  {
    var more := Stream(snaps[..HeightStop(snaps, lastHeight)]);
    if snaps == [] {
      assert seen + more == seen;
    } else if |Take(Distinct(seen), limit)| >= limit {
      CappedDistinctSettled(seen, more, limit);
    } else {
      GatherReadsSnapshot(seen, snaps, lastHeight, limit);
    }
  }

  /** The case of `GatherIsCappedDistinct` where the first snapshot is read. */
  lemma {:induction false} GatherReadsSnapshot(seen: seq<Profile>, snaps: seq<Snapshot>, lastHeight: int, limit: int)
    requires snaps != [] && |Take(Distinct(seen), limit)| < limit
    ensures Gather(Take(Distinct(seen), limit), snaps, lastHeight, limit)
         == Take(Distinct(seen + Stream(snaps[..HeightStop(snaps, lastHeight)])), limit)
    decreases |snaps|, 1
  {
    var found := Take(Distinct(seen), limit);
    CappedDistinctStep(seen, snaps[0].cards, limit);
    GatherOnce(found, snaps, lastHeight, limit);
    if snaps[0].heightAfterScroll == lastHeight {
      StreamOfLast(snaps, lastHeight);
    } else {
      GatherContinues(seen, snaps, lastHeight, limit);
    }
  }

  /** The case of `GatherReadsSnapshot` where the height changed. */
  lemma {:induction false} GatherContinues(seen: seq<Profile>, snaps: seq<Snapshot>, lastHeight: int, limit: int)
    requires snaps != [] && snaps[0].heightAfterScroll != lastHeight
    ensures Gather(Take(Distinct(seen + Admitted(snaps[0].cards)), limit), snaps[1..], snaps[0].heightAfterScroll, limit)
         == Take(Distinct(seen + Stream(snaps[..HeightStop(snaps, lastHeight)])), limit)
    decreases |snaps|, 0
  {
    var adm := Admitted(snaps[0].cards);
    var rest := snaps[1..];
    var h := snaps[0].heightAfterScroll;
    var restMore := Stream(rest[..HeightStop(rest, h)]);
    var more := Stream(snaps[..HeightStop(snaps, lastHeight)]);
    StreamAfterFirst(snaps, lastHeight);
    assert more == adm + restMore;
    assert seen + adm + restMore == seen + more;
    GatherIsCappedDistinct(seen + adm, rest, h, limit);
  }

  /** The search result is the first `limit` distinct admissible profiles,
      in the order first seen, among the snapshots read before the page
      height stopped changing. */
  lemma SearchResultIsFirstDistinct(page: Page, limit: int)
    ensures SearchResult(page, limit)
         == Take(Distinct(Stream(page.snapshots[..HeightStop(page.snapshots, page.initialHeight)])), limit)
  {
    var snaps := page.snapshots;
    var more := Stream(snaps[..HeightStop(snaps, page.initialHeight)]);
    assert Take(Distinct<Profile>([]), limit) == [];
    GatherIsCappedDistinct([], snaps, page.initialHeight, limit);
    assert [] + more == more;
  }

  /** What the caller can rely on: no repeated `{name, url}` pair, at most
      `limit` profiles, each admissible and seen on the page; and when fewer
      than `limit` came back, every admissible profile the read snapshots
      showed is there. */
  lemma SearchResultProperties(page: Page, limit: int)
    ensures NoDuplicates(SearchResult(page, limit))
    ensures |SearchResult(page, limit)| <= if limit < 0 then 0 else limit
    ensures forall p :: p in SearchResult(page, limit) ==> Admissible(p)
    ensures forall p :: p in SearchResult(page, limit) ==>
      p in Stream(page.snapshots[..HeightStop(page.snapshots, page.initialHeight)])
    ensures |SearchResult(page, limit)| < limit ==>
      forall p :: p in Stream(page.snapshots[..HeightStop(page.snapshots, page.initialHeight)]) ==>
        p in SearchResult(page, limit)
  {
    var s := Stream(page.snapshots[..HeightStop(page.snapshots, page.initialHeight)]);
    SearchResultIsFirstDistinct(page, limit);
    StreamIsAdmissible(page.snapshots[..HeightStop(page.snapshots, page.initialHeight)]);
    ExtendNoDuplicates([], s);
    var d := Distinct(s);
    var r := SearchResult(page, limit);
    assert r == d[..|r|];
    forall p | p in r ensures Admissible(p) && p in s {
      assert p in d;
    }
    if |r| < limit {
      assert r == d;
    }
  }

  /** The `for card in cards` loop of `search_profiles`: each card either
      yields a profile that is appended unless already held, or is skipped;
      the loop breaks out as soon as `limit` profiles are held. */
  method ReadCards(found: seq<Profile>, cards: seq<Card>, limit: int) returns (profiles: seq<Profile>)
    requires |found| < limit
    ensures profiles == AddCards(found, cards, limit)
  {
    profiles := found;
    var j := 0;
    while j < |cards|
      invariant 0 <= j <= |cards|
      invariant |profiles| < limit
      invariant profiles == AddCards(found, cards[..j], limit)
    {
      ghost var before := profiles;
      AddCardsNext(found, cards, j, limit);
      match cards[j] {
        case NoAnchor =>
          // the anchor lookup raised: `except: continue`
          assert Admit(cards[j]) == None;
        case Anchor(text, href) =>
          // a missing href makes `.split` raise: skipped as well
          if href.Some? {
            var name := Strip(text);
            var url := BeforeFirst(href.value, '?');
            if name != [] && url != [] && StartsWith(url, ProfilePrefix) {
              var profile := Profile(name, url);
              assert Admit(cards[j]) == Some(profile);
              if profile !in profiles {
                profiles := profiles + [profile];
                assert profiles == Step(before, cards[j], limit);
                if |profiles| >= limit {
                  AddCardsSplit(found, cards, j + 1, limit);
                  return;
                }
              }
            } else {
              assert Admit(cards[j]) == None;
            }
          } else {
            assert Admit(cards[j]) == None;
          }
      }
      assert profiles == Step(before, cards[j], limit);
      j := j + 1;
    }
    assert cards[..j] == cards;
  }

  /** `search_profiles(driver, keyword, limit)`: open the search page for the
      keyword, then read, scroll and re-read until `limit` profiles are held
      or the page height stops changing. */
  method SearchProfiles(keyword: string, limit: int, browse: string -> Page) returns (profiles: seq<Profile>)
    ensures profiles == SearchResult(browse(SearchUrl(keyword)), limit)
    ensures NoDuplicates(profiles)
    ensures |profiles| <= if limit < 0 then 0 else limit
    ensures forall p :: p in profiles ==> Admissible(p)
  {
    var page := browse(SearchUrl(keyword));
    var snaps := page.snapshots;
    ghost var goal := Gather([], snaps, page.initialHeight, limit);
    var found: seq<Profile> := [];
    var lastHeight := page.initialHeight;
    var i := 0;
    while |found| < limit
      invariant 0 <= i <= |snaps|
      invariant Gather(found, snaps[i..], lastHeight, limit) == goal
      decreases |snaps| - i
    {
      if i == |snaps| {
        break;
      }
      assert snaps[i..][0] == snaps[i] && snaps[i..][1..] == snaps[i + 1..];
      found := ReadCards(found, snaps[i].cards, limit);
      // scroll to the bottom and read the new height
      var newHeight := snaps[i].heightAfterScroll;
      if newHeight == lastHeight {
        break;
      }
      lastHeight := newHeight;
      i := i + 1;
    }
    assert found == goal;
    profiles := SliceTo(found, limit);
    SearchResultProperties(page, limit);
  }
}
