/** `output_rss`: the publish-date store, the RSS items and the feed. The
    pickle file is seen only through what loading it yields and what is
    written back; the RSS serialiser and the file writes are not modelled. */
module Feed {
  import opened Wrappers
  import opened Civil
  import opened Format
  import opened Events

  const FeedTitle := "Vilnius Hardcore events"
  const FeedLink := "http://wemakethings.net/hcevents/"

  datatype RssItem = RssItem(title: string, link: string, guid: string, pubDate: Timestamp,
                             description: string)

  datatype Feed = Feed(title: string, link: string, lastBuildDate: Timestamp, description: string,
                       items: seq<RssItem>)

  /** The state of `pubdates.pickle` when the run starts. `EndOfInput` is a
      file that ends where the next pickle opcode would start, an empty file
      for one: `pickle.load` raises EOFError. A file cut inside an opcode's
      argument raises UnpicklingError instead and is `Unreadable`. */
  datatype StoreFile = Missing | EndOfInput | Unreadable | Saved(pubdates: map<Event, Timestamp>)

  /** Only FileNotFoundError and EOFError are caught; any other unpickling
      error propagates. */
  datatype LoadError = UnpicklingError

  /** The `try`/`except` around `pickle.load`: a missing file or one that
      ends early is an empty history, a file that does not unpickle ends the
      run, and a saved map is taken as it is. */
  function LoadPubDates(f: StoreFile): (r: Result<map<Event, Timestamp>, LoadError>)
    ensures r.Err? <==> f.Unreadable?
    ensures f.Saved? ==> r == Ok(f.pubdates)
    ensures f.Missing? || f.EndOfInput? ==> r == Ok(map[])
  {
    match f
    case Missing => Ok(map[])
    case EndOfInput => Ok(map[])
    case Unreadable => Err(UnpicklingError)
    case Saved(pubdates) => Ok(pubdates)
  }

  // Item formatting

  /** `"{:%Y-%m-%d} {}".format(event.time, event.title)`. */
  function ItemTitle(e: Event): string {
    FormatDate(e.time) + " " + e.title
  }

  /** `"{:%Y-%m-%d %H:%M}\n{}".format(event.time, event.description_html)`. */
  function ItemDescription(e: Event): string {
    FormatDateMinute(e.time) + "\n" + e.descriptionHtml
  }

  function ToItem(e: Event, pubDate: Timestamp): RssItem {
    RssItem(ItemTitle(e), e.url, e.url, pubDate, ItemDescription(e))
  }

  /** Splits an item title into its date and the event title. */
  function ParseItemTitle(s: string): Option<((int, int, int), string)> {
    if |s| >= 11 && s[10] == ' ' then
      match ParseDate(s[..10])
      case None => None
      case Some(date) => Some((date, s[11..]))
    else None
  }

  /** Splits an item description into its date and minute and the markup. */
  function ParseItemDescription(s: string): Option<((int, int, int, int, int), string)> {
    if |s| >= 17 && s[16] == '\n' then
      match ParseDateMinute(s[..16])
      case None => None
      case Some(stamp) => Some((stamp, s[17..]))
    else None
  }

  /** An item title gives back the event's calendar date and its title. */
  lemma ItemTitleRoundTrip(e: Event)
    ensures ParseItemTitle(ItemTitle(e)) == Some(((e.time.year, e.time.month, e.time.day), e.title))
  {
    var s := ItemTitle(e);
    assert s[..10] == FormatDate(e.time);
    assert s[11..] == e.title;
    ParseFormatDate(e.time);
  }

  /** An item description gives back the event's date, hour and minute and its markup. */
  lemma ItemDescriptionRoundTrip(e: Event)
    ensures ParseItemDescription(ItemDescription(e))
            == Some(((e.time.year, e.time.month, e.time.day, e.time.hour, e.time.minute),
                     e.descriptionHtml))
  {
    var s := ItemDescription(e);
    assert s[..16] == FormatDateMinute(e.time);
    assert s[17..] == e.descriptionHtml;
    ParseFormatDateMinute(e.time);
  }

  // The publish-date merge

  /** How many events of `s` are not in `stored`: the clock reads the loop
      makes over `s`. */
  function CountNew(stored: map<Event, Timestamp>, s: seq<Event>): (n: nat)
    ensures n <= |s|
  {
    if s == [] then 0
    else CountNew(stored, s[..|s| - 1]) + (if s[|s| - 1] in stored then 0 else 1)
  }

  /** The publish date the loop gives the `i`-th event: the stored one, or the
      next clock reading. */
  function PubDateAt(stored: map<Event, Timestamp>, events: seq<Event>, clock: nat -> Timestamp,
                     i: nat): Timestamp
    requires i < |events|
  {
    if events[i] in stored then stored[events[i]] else clock(CountNew(stored, events[..i]))
  }

  /** `updated_pubdates` after the loop has run over `events`; a stored event
      keeps its stored date. */
  function Merge(stored: map<Event, Timestamp>, events: seq<Event>, clock: nat -> Timestamp)
    : (r: map<Event, Timestamp>)
    ensures forall e :: e in r && e in stored ==> r[e] == stored[e]
  {
    if events == [] then map[]
    else
      var n := |events| - 1;
      Merge(stored, events[..n], clock)[events[n] := PubDateAt(stored, events, clock, n)]
  }

  /** The merged map holds exactly the events of this fetch: new ones are
      added and stored ones that were not fetched again are dropped. */
  lemma {:induction false} MergeKeys(stored: map<Event, Timestamp>, events: seq<Event>,
                                     clock: nat -> Timestamp)
    ensures Merge(stored, events, clock).Keys == set e | e in events
  {
    if events != [] {
      var n := |events| - 1;
      MergeKeys(stored, events[..n], clock);
      assert forall e :: e in events <==> e in events[..n] || e == events[n];
    }
  }

  /** The items the loop has appended after running over `events`. */
  function Items(stored: map<Event, Timestamp>, events: seq<Event>, clock: nat -> Timestamp)
    : (r: seq<RssItem>)
    ensures |r| == |events|
  {
    if events == [] then []
    else
      var n := |events| - 1;
      Items(stored, events[..n], clock) + [ToItem(events[n], PubDateAt(stored, events, clock, n))]
  }

  /** The date of an event depends only on the events up to it. */
  lemma PubDateAtPrefix(stored: map<Event, Timestamp>, events: seq<Event>, clock: nat -> Timestamp,
                        n: nat, i: nat)
    requires i < n <= |events|
    ensures events[..n][i] == events[i]
    ensures PubDateAt(stored, events[..n], clock, i) == PubDateAt(stored, events, clock, i)
  {
    assert events[..n][..i] == events[..i];
  }

  /** Item `i` is the `i`-th event formatted with the date the loop gave it. */
  lemma {:induction false} ItemsAt(stored: map<Event, Timestamp>, events: seq<Event>,
                                   clock: nat -> Timestamp, i: nat)
    requires i < |events|
    ensures Items(stored, events, clock)[i] == ToItem(events[i], PubDateAt(stored, events, clock, i))
  {
    var n := |events| - 1;
    var init := Items(stored, events[..n], clock);
    assert Items(stored, events, clock) == init + [ToItem(events[n], PubDateAt(stored, events, clock, n))];
    if i < n {
      ItemsAt(stored, events[..n], clock, i);
      PubDateAtPrefix(stored, events, clock, n, i);
      assert Items(stored, events, clock)[i] == init[i];
    }
  }

  /** One turn of the loop: the `i`-th event enters the map with its date,
      and the clock is read once more exactly when it was not stored. */
  lemma MergeStep(stored: map<Event, Timestamp>, events: seq<Event>, clock: nat -> Timestamp, i: nat)
    requires i < |events|
    ensures Merge(stored, events[..i + 1], clock)
            == Merge(stored, events[..i], clock)[events[i] := PubDateAt(stored, events, clock, i)]
    ensures CountNew(stored, events[..i + 1])
            == CountNew(stored, events[..i]) + if events[i] in stored then 0 else 1
    ensures Items(stored, events[..i + 1], clock)
            == Items(stored, events[..i], clock) + [ToItem(events[i], PubDateAt(stored, events, clock, i))]
  {
    assert events[..i + 1][..i] == events[..i];
  }

  /** The position of the last occurrence of `e` in `s`. */
  function LastIndex(s: seq<Event>, e: Event): (i: nat)
    requires e in s
    ensures i < |s| && s[i] == e
    ensures forall j :: i < j < |s| ==> s[j] != e
  {
    if s[|s| - 1] == e then |s| - 1
    else
      assert e in s[..|s| - 1];
      LastIndex(s[..|s| - 1], e)
  }

  /** An event's merged date is the one the loop gave its last occurrence:
      the stored date, or, for an event that was not stored, the clock
      reading taken at that occurrence. */
  lemma {:induction false} MergeAtLast(stored: map<Event, Timestamp>, events: seq<Event>,
                                       clock: nat -> Timestamp, e: Event)
    requires e in events
    ensures e in Merge(stored, events, clock)
    ensures Merge(stored, events, clock)[e] == PubDateAt(stored, events, clock, LastIndex(events, e))
    ensures e !in stored ==>
      Merge(stored, events, clock)[e] == clock(CountNew(stored, events[..LastIndex(events, e)]))
  {
    var n := |events| - 1;
    if events[n] != e {
      var init := events[..n];
      assert e in init;
      MergeAtLast(stored, init, clock, e);
      var k := LastIndex(init, e);
      assert LastIndex(events, e) == k;
      assert init[..k] == events[..k];
    }
  }

  /** Merging events that are all stored reads no clock and keeps exactly
      their stored dates. */
  lemma {:induction false} MergeAllStored(m: map<Event, Timestamp>, events: seq<Event>,
                                          clock: nat -> Timestamp)
    requires forall e :: e in events ==> e in m
    ensures CountNew(m, events) == 0
    ensures Merge(m, events, clock) == map e | e in events :: m[e]
  {
    if events != [] {
      var n := |events| - 1;
      MergeAllStored(m, events[..n], clock);
    }
  }

  /** Idempotence: merging again over the merged map with the same events
      gives the same map and reads no clock, whatever the clock says. */
  lemma MergeIdempotent(stored: map<Event, Timestamp>, events: seq<Event>,
                        clock: nat -> Timestamp, clock': nat -> Timestamp)
    ensures var m := Merge(stored, events, clock);
      CountNew(m, events) == 0 && Merge(m, events, clock') == m
  {
    var m := Merge(stored, events, clock);
    MergeKeys(stored, events, clock);
    MergeAllStored(m, events, clock');
  }

  /** Some element of a non-empty set. */
  lemma Pick<T>(s: set<T>) returns (x: T)
    requires s != {}
    ensures x in s
  {
    assert |s| != 0;
    x :| x in s;
  }

  /** `max(updated_pubdates.values())`; nothing for an empty map, where `max`
      raises ValueError. */
  method MaxPubDate(m: map<Event, Timestamp>) returns (r: Option<Timestamp>)
    ensures r.None? <==> |m| == 0
    ensures r.Some? ==> r.value in m.Values && forall v :: v in m.Values ==> v <= r.value
  {
    if |m| == 0 {
      return None;
    }
    // The picked key is the witness the `:|` below needs.
    ghost var w := Pick(m.Keys);
    var k :| k in m;
    var best := m[k];
    var rest := m.Values - {best};
    while rest != {}
      invariant rest <= m.Values && best in m.Values
      invariant forall v :: v in m.Values && v !in rest ==> v <= best
      decreases rest
    {
      // The picked value is the witness the `:|` below needs.
      ghost var w := Pick(rest);
      var v :| v in rest;
      if v > best {
        best := v;
      }
      rest := rest - {v};
    }
    return Some(best);
  }

  /** How a run of `output_rss` ends. The store is written back before the
      build date is computed, so a run over no events saves an empty store and
      then fails. */
  datatype RssOutcome =
    | LoadFailed(error: LoadError)
    | NoLastBuildDate(saved: map<Event, Timestamp>)
    | Written(saved: map<Event, Timestamp>, feed: Feed)

  /** `output_rss`, with the `i`-th clock reading `clock(i)`. */
  method OutputRss(events: seq<Event>, file: StoreFile, clock: nat -> Timestamp)
    returns (out: RssOutcome)
    ensures out.LoadFailed? <==> file.Unreadable?
    ensures !file.Unreadable? ==> out.saved == Merge(LoadPubDates(file).value, events, clock)
    ensures out.NoLastBuildDate? <==> !file.Unreadable? && events == []
    ensures out.Written? ==> && out.feed.title == FeedTitle && out.feed.link == FeedLink
                             && out.feed.description == "" && |out.feed.items| == |events|
    ensures out.Written? ==> forall i :: 0 <= i < |events| ==>
      out.feed.items[i] == ToItem(events[i], PubDateAt(LoadPubDates(file).value, events, clock, i))
    ensures out.Written? ==> && out.feed.lastBuildDate in out.saved.Values
                             && forall v :: v in out.saved.Values ==> v <= out.feed.lastBuildDate
  {
    var loaded := LoadPubDates(file);
    if loaded.Err? {
      return LoadFailed(loaded.error);
    }
    var pubdates := loaded.value;
    var updated: map<Event, Timestamp> := map[];
    var items: seq<RssItem> := [];
    var clockReads: nat := 0;
    for i := 0 to |events|
      invariant updated == Merge(pubdates, events[..i], clock)
      invariant clockReads == CountNew(pubdates, events[..i])
      invariant items == Items(pubdates, events[..i], clock)
    {
      var event := events[i];
      var pubdate: Timestamp;
      if event in pubdates {
        pubdate := pubdates[event];
      } else {
        pubdate := clock(clockReads);
        clockReads := clockReads + 1;
      }
      MergeStep(pubdates, events, clock, i);
      updated := updated[event := pubdate];
      items := items + [ToItem(event, pubdate)];
    }
    assert events[..|events|] == events;
    MergeKeys(pubdates, events, clock);
    forall i | 0 <= i < |events|
      ensures items[i] == ToItem(events[i], PubDateAt(pubdates, events, clock, i))
    {
      ItemsAt(pubdates, events, clock, i);
    }
    assert events != [] ==> events[0] in updated;
    var lastBuildDate := MaxPubDate(updated);
    if lastBuildDate.None? {
      return NoLastBuildDate(updated);
    }
    return Written(updated, Feed(FeedTitle, FeedLink, lastBuildDate.value, "", items));
  }
}
