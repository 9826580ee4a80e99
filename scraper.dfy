/** `kijiji_rentals_scraper.py`: one row per rental ad read from the search
    result pages (`collect_ad_info`), then the new rows appended to the saved
    ones and duplicate listings dropped. Fetching pages over HTTP is outside
    the model: the ads of each page arrive as parameters. */
module Scraper {
  import opened Wrappers
  import opened Sequences
  import opened Tabular
  import opened Strings

  /** One ad element of a result page: the raw text of each sub-element the
      scraper looks for, `None` when the element is absent (`find` gives None),
      and the `href` of the first element carrying one. */
  datatype Ad = Ad(title: Option<string>, price: Option<string>, datePosted: Option<string>,
                   location: Option<string>, description: Option<string>,
                   nearestIntersection: Option<string>, bedrooms: Option<string>,
                   href: Option<string>)

  /** One row of the saved table, columns Title, Price, Date, Location,
      Description, NearestIntersection, Bedrooms and Link. */
  datatype Listing = Listing(title: string, price: string, date: string, location: string,
                             description: string, nearestIntersection: string,
                             bedrooms: string, link: string)

  /** The calendar date of the clock reading taken once per run. */
  datatype Timestamp = Timestamp(year: nat, month: nat, day: nat)

  /** A required element is absent: reading its text raises, and the run
      stops without writing the file. */
  datatype ScrapeError = MissingElement(element: string)

  const Home: string := "https://www.kijiji.ca"

  /** `'%s-%s-%s ' % (day, month, year)`, the Date column. */
  function DateStamp(ts: Timestamp): string {
    NatToString(ts.day) + "-" + NatToString(ts.month) + "-" + NatToString(ts.year) + " "
  }

  /** The title says the poster is looking for a place, not offering one. */
  predicate Wanted(ad: Ad) {
    ad.title.Some? && Contains(NormalizeSpace(ad.title.value), "Wanted: ")
  }

  /** One of the elements whose absence raises is absent. */
  predicate MissingRequired(ad: Ad) {
    ad.price.None? || ad.datePosted.None? || ad.location.None? || ad.description.None? || ad.href.None?
  }

  /** What every collected row satisfies. */
  predicate WellFormed(l: Listing, ts: Timestamp) {
    && Normalized(l.title) && !Contains(l.title, "Wanted: ")
    && '$' !in l.price && ',' !in l.price
    && l.date == DateStamp(ts)
    && Normalized(l.description) && Normalized(l.nearestIntersection)
    && !Contains(l.bedrooms, ": ")
    && Home <= l.link
  }

  /** The normalised text of a required element. */
  function Required(e: Option<string>, name: string): (r: Result<string, ScrapeError>)
    ensures r.Failure? <==> e.None?
    ensures r.Success? ==> r.value == NormalizeSpace(e.value) && Normalized(r.value)
  {
    match e
    case None => Failure(MissingElement(name))
    case Some(s) => NormalizeSpaceShape(s); Success(NormalizeSpace(s))
  }

  /** The normalised text of an element inside `try`, `''` when it is absent. */
  function Optional(e: Option<string>): (r: string)
    ensures e.None? ==> r == ""
    ensures e.Some? ==> r == NormalizeSpace(e.value)
    ensures Normalized(r)
  {
    match e
    case None => ""
    case Some(s) => NormalizeSpaceShape(s); NormalizeSpace(s)
  }

  /** One iteration of the loop of `collect_ad_info`: `None` for a skipped
      "Wanted: " ad, a failure when a required element is absent. */
  function BuildListing(ad: Ad, ts: Timestamp): (r: Result<Option<Listing>, ScrapeError>)
    ensures r.Failure? <==> ad.title.None? || (!Wanted(ad) && MissingRequired(ad))
    ensures r == Success(None) <==> Wanted(ad)
    ensures r.Success? && r.value.Some? ==> WellFormed(r.value.value, ts)
    ensures r.Success? && r.value.Some? ==>
              && ad.title.Some? && !MissingRequired(ad)
              && var l := r.value.value;
              && l.title == NormalizeSpace(ad.title.value)
              && l.price == StripPrice(NormalizeSpace(ad.price.value))
              && l.date == DateStamp(ts)
              && l.location == RemoveAll(NormalizeSpace(ad.location.value), NormalizeSpace(ad.datePosted.value))
              && l.description == NormalizeSpace(ad.description.value)
              && l.nearestIntersection == (if ad.nearestIntersection.None? then ""
                                           else NormalizeSpace(ad.nearestIntersection.value))
              && l.bedrooms == (if ad.bedrooms.None? then ""
                                else LastPiece(NormalizeSpace(ad.bedrooms.value), ": "))
              && l.link == Home + ad.href.value
  {
    match ad.title
    case None => Failure(MissingElement("title"))
    case Some(rawTitle) =>
      var title := NormalizeSpace(rawTitle);
      if Contains(title, "Wanted: ") then Success(None)
      else
        var price :- Required(ad.price, "price");
        var datePosted :- Required(ad.datePosted, "date-posted");
        var location :- Required(ad.location, "location");
        var description :- Required(ad.description, "description");
        var href :- match ad.href
                    case None => Failure(MissingElement("href"))
                    case Some(h) => Success(h);
        var bedrooms := if ad.bedrooms.None? then "" else LastPiece(Optional(ad.bedrooms), ": ");
        NormalizeSpaceShape(rawTitle);
        StripPriceSpec(price);
        LastPieceSpec(Optional(ad.bedrooms), ": ");
        Success(Some(Listing(title, StripPrice(price), DateStamp(ts), RemoveAll(location, datePosted),
                             description, Optional(ad.nearestIntersection), bedrooms, Home + href)))
  }

  /** The ad a result page shows for a listing: each element holds the
      listing's text, and the date-posted element holds `posted`. */
  function PageAd(l: Listing, posted: string, href: string): Ad {
    Ad(Some(l.title), Some(l.price), Some(posted), Some(l.location), Some(l.description),
       Some(l.nearestIntersection), Some(l.bedrooms), Some(href))
  }

  /** The texts of a listing other than its location are already in the
      form the scraper writes them: normalised, a price without '$' or ',',
      bedrooms without ": ", the date of the run and a link to the site. */
  predicate PlainTexts(l: Listing, posted: string, href: string, ts: Timestamp) {
    && Normalized(l.title) && !Contains(l.title, "Wanted: ")
    && Normalized(l.price) && '$' !in l.price && ',' !in l.price
    && Normalized(posted)
    && Normalized(l.description) && Normalized(l.nearestIntersection)
    && Normalized(l.bedrooms) && !Contains(l.bedrooms, ": ")
    && l.date == DateStamp(ts) && l.link == Home + href
  }

  /** Reading back the ad a page shows for a listing gives the listing again,
      for a listing whose texts are normalised, whose other texts are plain
      and whose location does not hold the date-posted text. */
  lemma BuildListingOfPage(l: Listing, posted: string, href: string, ts: Timestamp)
    requires PlainTexts(l, posted, href, ts)
    requires Normalized(l.location) && (posted == [] || !Contains(l.location, posted))
    ensures BuildListing(PageAd(l, posted, href), ts) == Success(Some(l))
  {
    PlainTextsFixed(l, posted, href, ts);
    NormalizedFixed(l.location);
    if posted != [] {
      RemoveAllAbsent(l.location, posted);
    }
  }

  /** The same round trip for a page whose location element also shows the
      date-posted text after a blank, as result pages do: removing that text
      leaves the place and the blank before it, so the row's location is
      `place + " "`, as the scraper writes it. The date-posted text must not
      occur in the location text before its own copy at the end. */
  lemma BuildListingOfDatedPage(l: Listing, place: string, posted: string, href: string, ts: Timestamp)
    requires PlainTexts(l, posted, href, ts)
    requires Normalized(place) && place != [] && posted != []
    requires forall i :: 0 <= i <= |place| ==> !OccursAt(place + " " + posted, posted, i)
    requires l.location == place + " "
    ensures BuildListing(PageAd(l, posted, href).(location := Some(place + " " + posted)), ts)
            == Success(Some(l))
  {
    PlainTextsFixed(l, posted, href, ts);
    var shown := place + " " + posted;
    NormalizedJoinBlank(place, posted);
    NormalizedFixed(shown);
    assert shown == l.location + posted + [];
    RemoveAllAfter(l.location, posted, []);
    assert RemoveAll([], posted) == [];
    var ad := PageAd(l, posted, href).(location := Some(shown));
    assert RemoveAll(NormalizeSpace(shown), NormalizeSpace(posted)) == l.location;
    assert !Wanted(ad) && !MissingRequired(ad);
    var r := BuildListing(ad, ts);
    assert r.Success? && r.value.Some?;
    assert r.value.value.location == l.location;
  }

  /** Plain texts read back as themselves. */
  lemma PlainTextsFixed(l: Listing, posted: string, href: string, ts: Timestamp)
    requires PlainTexts(l, posted, href, ts)
    ensures NormalizeSpace(l.title) == l.title && NormalizeSpace(posted) == posted
    ensures StripPrice(NormalizeSpace(l.price)) == l.price
    ensures NormalizeSpace(l.description) == l.description
    ensures NormalizeSpace(l.nearestIntersection) == l.nearestIntersection
    ensures LastPiece(NormalizeSpace(l.bedrooms), ": ") == l.bedrooms
  {
    NormalizedFixed(l.title);
    NormalizedFixed(l.price);
    NormalizedFixed(posted);
    NormalizedFixed(l.description);
    NormalizedFixed(l.nearestIntersection);
    NormalizedFixed(l.bedrooms);
    NotContainsChar(l.price, '$');
    RemoveAllAbsent(l.price, "$");
    NotContainsChar(l.price, ',');
    RemoveAllAbsent(l.price, ",");
    LastPieceSpec(l.bedrooms, ": ");
  }

  /** The rows collected from a run of items, and the failure that ended the
      run early, if any. */
  datatype Harvest<L, E> = Harvest(rows: seq<L>, error: Option<E>)

  function Listed<L>(l: Option<L>): seq<L> {
    if l.Some? then [l.value] else []
  }

  /** The loop of `collect_ad_info` with its per-ad step `build`: the rows in
      item order, skipping items `build` maps to `None`, and stopping at the
      first item `build` fails on. */
  function Collect<A, L, E>(items: seq<A>, build: A -> Result<Option<L>, E>): (h: Harvest<L, E>)
    ensures |h.rows| <= |items|
    decreases |items|
  {
    if items == [] then Harvest([], None)
    else
      match build(items[0])
      case Failure(e) => Harvest([], Some(e))
      case Success(l) =>
        var rest := Collect(items[1..], build);
        Harvest(Listed(l) + rest.rows, rest.error)
  }

  /** Every row is one `build` produced, so it has every property `build`
      guarantees of its rows. */
  lemma {:induction false} CollectRows<A, L, E>(items: seq<A>, build: A -> Result<Option<L>, E>, ok: L -> bool)
    requires forall a :: build(a).Success? && build(a).value.Some? ==> ok(build(a).value.value)
    ensures forall i :: 0 <= i < |Collect(items, build).rows| ==> ok(Collect(items, build).rows[i])
    decreases |items|
  {
    if items != [] {
      CollectRows(items[1..], build, ok);
    }
  }

  /** Without a failure, the rows are produced by exactly the items `keep`
      selects (those not skipped), one per item and in item order. */
  lemma {:induction false} CollectComplete<A, L, E>(items: seq<A>, build: A -> Result<Option<L>, E>, keep: A -> bool)
    requires forall a :: keep(a) <==> build(a) != Success(None)
    requires forall i :: 0 <= i < |items| ==> build(items[i]).Success?
    ensures Collect(items, build).error.None?
    ensures |Collect(items, build).rows| == |Filter(items, keep)|
    ensures forall k :: 0 <= k < |Filter(items, keep)| ==>
              build(Filter(items, keep)[k]) == Success(Some(Collect(items, build).rows[k]))
    decreases |items|
  {
    if items != [] {
      assert forall i :: 0 <= i < |items[1..]| ==> items[1..][i] == items[i + 1];
      CollectComplete(items[1..], build, keep);
      var h, rest := Collect(items, build), Collect(items[1..], build);
      var kept, kept' := Filter(items, keep), Filter(items[1..], keep);
      if !keep(items[0]) {
        assert h == rest && kept == kept';
      } else {
        var l := build(items[0]).value;
        assert h.rows == [l.value] + rest.rows && kept == [items[0]] + kept';
        forall k | 0 <= k < |kept|
          ensures build(kept[k]) == Success(Some(h.rows[k]))
        {
          if k > 0 {
            assert kept[k] == kept'[k - 1] && h.rows[k] == rest.rows[k - 1];
          }
        }
      }
    }
  }

  /** One turn of the loop: the run from item `i` is the step on item `i`
      followed by the run from item `i + 1`. */
  lemma CollectStep<A, L, E>(items: seq<A>, i: nat, build: A -> Result<Option<L>, E>)
    requires i < |items|
    ensures Collect(items[i..], build) ==
              match build(items[i])
              case Failure(e) => Harvest([], Some(e))
              case Success(l) => Harvest(Listed(l) + Collect(items[i + 1..], build).rows,
                                         Collect(items[i + 1..], build).error)
  {
    assert items[i..][0] == items[i] && items[i..][1..] == items[i + 1..];
  }

  /** The item at `i` is the first one `build` fails on. */
  predicate StopsAt<A, L, E>(items: seq<A>, build: A -> Result<Option<L>, E>, i: nat) {
    && i < |items| && build(items[i]).Failure?
    && forall j :: 0 <= j < i ==> build(items[j]).Success?
  }

  /** A run fails exactly when some item fails; the failure is that of the
      first failing item, and the rows are those of the items before it. */
  lemma {:induction false} CollectStops<A, L, E>(items: seq<A>, build: A -> Result<Option<L>, E>)
    ensures Collect(items, build).error.Some? <==> exists i :: 0 <= i < |items| && build(items[i]).Failure?
    ensures Collect(items, build).error.Some? ==>
              exists i: nat :: StopsAt(items, build, i) && Collect(items, build).error.value == build(items[i]).error
                               && Collect(items, build).rows == Collect(items[..i], build).rows
    decreases |items|
  {
    if items != [] {
      if build(items[0]).Failure? {
        assert StopsAt(items, build, 0) && items[..0] == [];
      } else {
        CollectStops(items[1..], build);
        var tail := items[1..];
        var rest := Collect(tail, build);
        assert (exists i :: 0 <= i < |items| && build(items[i]).Failure?) ==>
               (exists i :: 0 <= i < |tail| && build(tail[i]).Failure?) by {
          if exists i :: 0 <= i < |items| && build(items[i]).Failure? {
            var i :| 0 <= i < |items| && build(items[i]).Failure?;
            assert i > 0 && tail[i - 1] == items[i];
          }
        }
        if rest.error.Some? {
          var i: nat :| StopsAt(tail, build, i) && rest.error.value == build(tail[i]).error
                        && rest.rows == Collect(tail[..i], build).rows;
          assert tail[i] == items[i + 1];
          assert StopsAt(items, build, i + 1) by {
            forall j | 0 <= j < i + 1 ensures build(items[j]).Success? {
              if j > 0 { assert items[j] == tail[j - 1]; }
            }
          }
          var pre := items[..i + 1];
          assert pre[0] == items[0] && pre[1..] == tail[..i];
        }
      }
    }
  }

  /** Collecting two runs one after the other collects their concatenation;
      a failure in the first run ends everything. */
  lemma {:induction false} CollectAppend<A, L, E>(a: seq<A>, b: seq<A>, build: A -> Result<Option<L>, E>)
    ensures Collect(a + b, build) ==
              if Collect(a, build).error.Some? then Collect(a, build)
              else Harvest(Collect(a, build).rows + Collect(b, build).rows, Collect(b, build).error)
    decreases |a|
  {
    if a == [] {
      assert a + b == b;
    } else {
      assert (a + b)[0] == a[0] && (a + b)[1..] == a[1..] + b;
      CollectAppend(a[1..], b, build);
    }
  }

  /** The step of `collect_ad_info` on one ad, for the run's timestamp. */
  function Builder(ts: Timestamp): Ad -> Result<Option<Listing>, ScrapeError> {
    a => BuildListing(a, ts)
  }

  /** `collect_ad_info(ads, df_new, timestamp)`: the rows it appends and the
      failure that ends it. */
  function HarvestAds(ads: seq<Ad>, ts: Timestamp): (h: Harvest<Listing, ScrapeError>)
    ensures forall i :: 0 <= i < |h.rows| ==> WellFormed(h.rows[i], ts)
  {
    CollectRows(ads, Builder(ts), l => WellFormed(l, ts));
    Collect(ads, Builder(ts))
  }

  /** Without a failure, `collect_ad_info` lists exactly the ads that are not
      "Wanted: " ads, one row per ad and in ad order. */
  lemma HarvestComplete(ads: seq<Ad>, ts: Timestamp)
    requires forall i :: 0 <= i < |ads| ==> BuildListing(ads[i], ts).Success?
    ensures HarvestAds(ads, ts).error.None?
    ensures var kept := Filter(ads, a => !Wanted(a));
            |HarvestAds(ads, ts).rows| == |kept| &&
            forall k :: 0 <= k < |kept| ==> BuildListing(kept[k], ts) == Success(Some(HarvestAds(ads, ts).rows[k]))
  {
    CollectComplete(ads, Builder(ts), a => !Wanted(a));
  }

  /** The pages' ads, first page first. */
  function Flatten(pages: seq<seq<Ad>>): (ads: seq<Ad>)
    ensures forall i :: 0 <= i < |pages| ==> |pages[i]| <= |ads|
    decreases |pages|
  {
    if pages == [] then []
    else Flatten(pages[..|pages| - 1]) + pages[|pages| - 1]
  }

  lemma {:induction false} FlattenAppend(p: seq<seq<Ad>>, q: seq<seq<Ad>>)
    ensures Flatten(p + q) == Flatten(p) + Flatten(q)
    decreases |q|
  {
    if q == [] {
      assert p + q == p;
    } else {
      var pq := p + q;
      assert pq[..|pq| - 1] == p + q[..|q| - 1];
      FlattenAppend(p, q[..|q| - 1]);
    }
  }

  /** The number that heads a labelled field: "Bedrooms: 2" gives "2". */
  lemma AfterLabel(tag: string, v: string)
    requires !Contains(v, ": ")
    ensures LastPiece(tag + ": " + v, ": ") == v
  {
    var sep := ": ";
    var s := tag + sep + v;
    var p := |tag|;
    assert OccursAt(s, sep, p) by { assert s[p..p + 2] == sep; }
    LastPieceSpec(s, sep);
    var r := LastPiece(s, sep);
    var e := |s| - |r|;
    assert SepBefore(s, sep, e);
    assert s[e - 2] == ':' && s[e - 1] == ' ' by { assert s[e - 2..e][0] == s[e - 2]; }
    assert s[p] == ':' && s[p + 1] == ' ';
    if e >= p + 4 {
      var j := e - 2 - (p + 2);
      assert v[j..j + 2] == s[e - 2..e];
      assert OccursAt(v, sep, j);
    } else if e == p + 2 {
      assert r == s[p + 2..] == v;
    }
  }

  /** `drop_duplicates` keys. */
  function LinkKey(l: Listing): string { l.link }
  function TitleKey(l: Listing): string { l.title }

  /** The saved rows, then the new ones, keeping the first row per Link and
      then the first row per Title. */
  function Merge(saved: seq<Listing>, added: seq<Listing>): seq<Listing> {
    DropDuplicates(DropDuplicates(saved + added, LinkKey), TitleKey)
  }

  /** The merged table is an order-preserving selection of the saved rows
      followed by the new ones, with no two rows sharing a Link or a Title,
      and for every input row, the title of the first row with its Link is
      present; each kept row is the first with its Link, and the first with
      its Title among the rows the Link pass kept. */
  lemma MergeSpec(saved: seq<Listing>, added: seq<Listing>)
    ensures IsSubseq(Merge(saved, added), saved + added)
    ensures DistinctKeys(Merge(saved, added), LinkKey) && DistinctKeys(Merge(saved, added), TitleKey)
    ensures forall x :: x in saved + added ==>
              HasKey(Merge(saved, added), TitleKey, FirstWith(saved + added, LinkKey, x.link).title)
    ensures forall x :: x in Merge(saved, added) ==>
              && HasKey(saved + added, LinkKey, x.link) && x == FirstWith(saved + added, LinkKey, x.link)
              && HasKey(DropDuplicates(saved + added, LinkKey), TitleKey, x.title)
              && x == FirstWith(DropDuplicates(saved + added, LinkKey), TitleKey, x.title)
  {
    var s := saved + added;
    var d1 := DropDuplicates(s, LinkKey);
    var m := Merge(saved, added);
    DropDuplicatesSpec(s, LinkKey);
    DropDuplicatesSpec(d1, TitleKey);
    SubseqTrans(m, d1, s);
    SubseqDistinctKeys(m, d1, LinkKey);
    forall x | x in s
      ensures HasKey(m, TitleKey, FirstWith(s, LinkKey, x.link).title)
    {
      assert LinkKey(x) == x.link;
      var i :| 0 <= i < |d1| && LinkKey(d1[i]) == x.link;
      assert d1[i] in d1;
    }
    SubseqMembers(m, d1);
    forall x | x in m
      ensures HasKey(s, LinkKey, x.link) && x == FirstWith(s, LinkKey, x.link)
      ensures HasKey(d1, TitleKey, x.title) && x == FirstWith(d1, TitleKey, x.title)
    {
      assert x in d1 && LinkKey(x) == x.link && TitleKey(x) == x.title;
    }
  }

  /** Merging one more new row: it is appended exactly when no earlier row
      has its Link and no earlier row kept by the Link pass has its Title;
      otherwise it is the later duplicate and is dropped. */
  lemma MergeAddOne(saved: seq<Listing>, added: seq<Listing>, x: Listing)
    ensures Merge(saved, added + [x]) == Merge(saved, added)
              + (if HasKey(saved + added, LinkKey, x.link)
                    || HasKey(DropDuplicates(saved + added, LinkKey), TitleKey, x.title) then [] else [x])
  {
    var s := saved + added;
    var d1 := DropDuplicates(s, LinkKey);
    assert saved + (added + [x]) == s + [x];
    DropDuplicatesSnoc(s, x, LinkKey);
    if HasKey(s, LinkKey, x.link) {
      assert DropDuplicates(s + [x], LinkKey) == d1;
    } else {
      DropDuplicatesSnoc(d1, x, TitleKey);
    }
  }

  /** Rows already saved by an earlier run (distinct Links and Titles) all
      stay, first and in their order. */
  lemma MergeKeepsSaved(saved: seq<Listing>, added: seq<Listing>)
    requires DistinctKeys(saved, LinkKey) && DistinctKeys(saved, TitleKey)
    ensures saved <= Merge(saved, added)
  {
    var d1 := DropDuplicates(saved + added, LinkKey);
    DropDuplicatesKeepsPrefix(saved, added, LinkKey);
    assert d1 == saved + d1[|saved|..];
    DropDuplicatesKeepsPrefix(saved, d1[|saved|..], TitleKey);
  }

  /** New rows that repeat no Link and no Title are all appended. */
  lemma MergeAppendsNew(saved: seq<Listing>, added: seq<Listing>)
    requires DistinctKeys(saved + added, LinkKey) && DistinctKeys(saved + added, TitleKey)
    ensures Merge(saved, added) == saved + added
  {
    DedupFromDistinct(saved + added, LinkKey, {});
    DedupFromDistinct(saved + added, TitleKey, {});
  }

  /** A run that finds no new ads leaves a merged file as it is. */
  lemma MergeRerun(saved: seq<Listing>, added: seq<Listing>)
    ensures Merge(Merge(saved, added), []) == Merge(saved, added)
  {
    var m := Merge(saved, added);
    MergeSpec(saved, added);
    assert m + [] == m;
    MergeAppendsNew(m, []);
  }

  /** The Date column tells runs on different days apart. */
  lemma DateStampInjective(a: Timestamp, b: Timestamp)
    ensures DateStamp(a) == DateStamp(b) <==> a == b
  {
    if DateStamp(a) == DateStamp(b) {
      StampParts(NatToString(a.day), NatToString(a.month), NatToString(a.year),
                 NatToString(b.day), NatToString(b.month), NatToString(b.year));
    }
  }

  lemma StampParts(d1: string, m1: string, y1: string, d2: string, m2: string, y2: string)
    requires AllDigits(d1) && AllDigits(m1) && AllDigits(d2) && AllDigits(m2)
    requires d1 + "-" + m1 + "-" + y1 + " " == d2 + "-" + m2 + "-" + y2 + " "
    ensures d1 == d2 && m1 == m2 && y1 == y2
  {
    NoDash(d1); NoDash(d2); NoDash(m1); NoDash(m2);
    assert d1 + "-" + m1 + "-" + y1 + " " == d1 + ['-'] + (m1 + ['-'] + (y1 + " "));
    assert d2 + "-" + m2 + "-" + y2 + " " == d2 + ['-'] + (m2 + ['-'] + (y2 + " "));
    PieceSplit(d1, m1 + ['-'] + (y1 + " "), d2, m2 + ['-'] + (y2 + " "), '-');
    PieceSplit(m1, y1 + " ", m2, y2 + " ", '-');
    assert y1 == (y1 + " ")[..|y1|];
    assert y2 == (y2 + " ")[..|y2|];
  }

  lemma NoDash(d: string)
    requires AllDigits(d)
    ensures '-' !in d
  {
    assert forall i :: 0 <= i < |d| ==> IsDigit(d[i]);
  }

  /** A text cut at its first `c` has one way to be cut. */
  lemma PieceSplit(a1: string, b1: string, a2: string, b2: string, c: char)
    requires c !in a1 && c !in a2 && a1 + [c] + b1 == a2 + [c] + b2
    ensures a1 == a2 && b1 == b2
  {
    FirstPieceAt(a1, c, b1);
    FirstPieceAt(a2, c, b2);
    var s := a1 + [c] + b1;
    assert b1 == s[|a1| + 1..];
    assert b2 == s[|a2| + 1..];
  }

  /** The processing script strips '$' and ',' from the price again; on a
      collected row that changes nothing. */
  lemma ScrapedPriceStripped(l: Listing, ts: Timestamp)
    requires WellFormed(l, ts)
    ensures StripPrice(l.price) == l.price
  {
    NotContainsChar(l.price, '$');
    RemoveAllAbsent(l.price, "$");
    NotContainsChar(l.price, ',');
    RemoveAllAbsent(l.price, ",");
  }

  /** The table `df_new` the loop appends rows to. */
  class AdTable {
    var rows: seq<Listing>

    constructor()
      ensures rows == []
    {
      rows := [];
    }

    /** `collect_ad_info(ads, df_new, timestamp)`: appends one row per ad that
        is not a "Wanted: " ad, and stops at the first ad that raises. */
    method CollectAdInfo(ads: seq<Ad>, ts: Timestamp) returns (err: Option<ScrapeError>)
      modifies this
      ensures rows == old(rows) + HarvestAds(ads, ts).rows
      ensures err == HarvestAds(ads, ts).error
    {
      err := AppendRows(ads, Builder(ts));
    }

    /** The loop of `collect_ad_info` with its per-ad step `build`. */
    method AppendRows(ads: seq<Ad>, build: Ad -> Result<Option<Listing>, ScrapeError>) returns (err: Option<ScrapeError>)
      modifies this
      ensures rows == old(rows) + Collect(ads, build).rows
      ensures err == Collect(ads, build).error
    {
      for i := 0 to |ads|
        invariant rows + Collect(ads[i..], build).rows == old(rows) + Collect(ads, build).rows
        invariant Collect(ads[i..], build).error == Collect(ads, build).error
      {
        CollectStep(ads, i, build);
        var r := build(ads[i]);
        if r.Failure? {
          assert Collect(ads[i..], build) == Harvest([], Some(r.error));
          assert rows + [] == rows;
          return Some(r.error);
        }
        if r.value.Some? {
          rows := rows + [r.value.value];
        }
      }
      assert ads[|ads|..] == [];
      assert rows + [] == rows;
      err := None;
    }
  }

  /** The main program: collect the ads of every page into a new table and,
      when no ad raised, merge them into the saved rows; a failure writes
      nothing. */
  method Update(saved: seq<Listing>, pages: seq<seq<Ad>>, ts: Timestamp)
    returns (r: Result<seq<Listing>, ScrapeError>)
    ensures var h := HarvestAds(Flatten(pages), ts);
            r == if h.error.Some? then Failure(h.error.value) else Success(Merge(saved, h.rows))
  {
    var table := new AdTable();
    var k := 0;
    while k < |pages|
      invariant 0 <= k <= |pages|
      invariant HarvestAds(Flatten(pages[..k]), ts) == Harvest(table.rows, None)
    {
      var done := Flatten(pages[..k]);
      var err := table.CollectAdInfo(pages[k], ts);
      assert pages[..k + 1][..k] == pages[..k];
      assert Flatten(pages[..k + 1]) == done + pages[k];
      CollectAppend(done, pages[k], Builder(ts));
      if err.Some? {
        assert pages == pages[..k + 1] + pages[k + 1..];
        FlattenAppend(pages[..k + 1], pages[k + 1..]);
        CollectAppend(Flatten(pages[..k + 1]), Flatten(pages[k + 1..]), Builder(ts));
        return Failure(err.value);
      }
      k := k + 1;
    }
    assert pages[..k] == pages;
    r := Success(Merge(saved, table.rows));
  }
}
