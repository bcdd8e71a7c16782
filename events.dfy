/** The event record and its extraction from the page's event blocks
    (`get_events`). The HTML parser and XPath engine are abstracted away: each
    `ol.ai1ec-date-events` block arrives as the pieces the script reads from it. */
module Events {
  import opened Wrappers
  import opened Text
  import opened Civil

  /** One scraped listing. Two events are the same key of the publish-date
      store only when all five fields agree. */
  datatype Event = Event(title: string, url: string, time: Time,
                         descriptionHtml: string, descriptionText: string)

  /** The first `li.ai1ec-date/a` anchor: its own text, absent when the anchor
      has no text before its first child, and its `href`, absent when missing. */
  datatype Link = Link(text: Option<string>, href: Option<string>)

  /** An element following the date item: its serialised markup and its text content. */
  datatype DescElement = DescElement(markup: string, text: string)

  /** One block as the script sees it: the first date anchor, the first
      `span.ai1ec-event-time` label already parsed to a local date-time, and the
      description elements in document order. */
  datatype Block = Block(link: Option<Link>, time: Option<Time>, description: seq<DescElement>)

  /** Why extraction aborts: `[0]` on an empty match (IndexError), `.strip()`
      on an absent text (AttributeError), `'\n' + None` (TypeError). */
  datatype ExtractError = NoDateLink | NoLinkText | NoTimeLabel | NoHref

  /** `html.tostring(e)` of each description element. */
  function Markups(es: seq<DescElement>): seq<string> {
    seq(|es|, i requires 0 <= i < |es| => es[i].markup)
  }

  /** `e.text_content().strip()` of each description element. */
  function StrippedTexts(es: seq<DescElement>): seq<string> {
    seq(|es|, i requires 0 <= i < |es| => Strip(es[i].text))
  }

  /** The stripped, newline-joined texts of the description elements: the
      description text before the URL line is appended. */
  function DescriptionBody(es: seq<DescElement>): string {
    Strip(Join(StrippedTexts(es), "\n"))
  }

  /** A block from which the script builds an event without raising. */
  predicate Complete(b: Block) {
    b.link.Some? && b.link.value.text.Some? && b.link.value.href.Some? && b.time.Some?
  }

  /** The loop body of `get_events` for one block. */
  function BuildEvent(b: Block): (r: Result<Event, ExtractError>)
    ensures r.Ok? <==> Complete(b)
    ensures r.Ok? ==> r.value.url == b.link.value.href.value && r.value.time == b.time.value
    ensures r.Ok? ==> EndsWith(r.value.descriptionText, "\n" + r.value.url)
    ensures r.Ok? ==> r.value.descriptionHtml == Strip(Concat(Markups(b.description)))
  {
    if b.link.None? then Err(NoDateLink)
    else if b.link.value.text.None? then Err(NoLinkText)
    else if b.time.None? then Err(NoTimeLabel)
    else if b.link.value.href.None? then Err(NoHref)
    else Ok(Assemble(b.link.value.text.value, b.link.value.href.value, b.time.value, b.description))
  }

  function Assemble(linkText: string, url: string, time: Time, description: seq<DescElement>): (e: Event)
    ensures e.url == url && e.time == time
    ensures EndsWith(e.descriptionText, "\n" + url)
    ensures e.descriptionHtml == Strip(Concat(Markups(description)))
  {
    var linkTitle := Strip(linkText);
    var descriptionHtml := Strip(Concat(Markups(description)));
    var descriptionText := DescriptionBody(description) + ("\n" + url);
    EndsWithAppended(DescriptionBody(description), "\n" + url);
    var title := if linkTitle == [] then FirstLine(descriptionText) else linkTitle;
    Event(title, url, time, descriptionHtml, descriptionText)
  }

  /** The error a block raises follows the order of the statements of the loop
      body: anchor, its text, time label, then the `href` when the URL is appended. */
  lemma BuildEventError(b: Block)
    ensures b.link.None? ==> BuildEvent(b) == Err(NoDateLink)
    ensures b.link.Some? && b.link.value.text.None? ==> BuildEvent(b) == Err(NoLinkText)
    ensures b.link.Some? && b.link.value.text.Some? && b.time.None? ==> BuildEvent(b) == Err(NoTimeLabel)
    ensures b.link.Some? && b.link.value.text.Some? && b.time.Some? && b.link.value.href.None?
            ==> BuildEvent(b) == Err(NoHref)
  {
  }

  /** Title rule: the stripped anchor text when it is not empty, otherwise the
      first line of the description text, which is the first line of the
      description body and so holds no line break. */
  lemma TitleRule(b: Block)
    requires Complete(b)
    ensures var e := BuildEvent(b).value; var linkTitle := Strip(b.link.value.text.value);
      && (linkTitle != [] ==> e.title == linkTitle)
      && (linkTitle == [] ==> e.title == FirstLine(e.descriptionText)
                              && e.title == FirstLine(DescriptionBody(b.description))
                              && '\n' !in e.title)
  {
    FirstLineOfAppended(DescriptionBody(b.description), b.link.value.href.value);
  }

  /** The title is empty exactly when both the anchor text and every
      description text are white space only. */
  lemma TitleEmptyIff(b: Block)
    requires Complete(b)
    ensures BuildEvent(b).value.title == [] <==>
            Strip(b.link.value.text.value) == [] && DescriptionBody(b.description) == []
  {
    var body := DescriptionBody(b.description);
    TitleRule(b);
    if body != [] {
      FirstLineNonEmpty(body);
    }
  }

  /** Applies `f` to the elements in order and collects the results, stopping
      at the first error: a loop whose body may raise. */
  function MapUntilError<A, B, E>(f: A -> Result<B, E>, xs: seq<A>): Result<seq<B>, E> {
    if xs == [] then Ok([])
    else
      match MapUntilError(f, xs[..|xs| - 1])
      case Err(e) => Err(e)
      case Ok(ys) =>
        match f(xs[|xs| - 1])
        case Err(e) => Err(e)
        case Ok(y) => Ok(ys + [y])
  }

  /** Every element succeeds and the results line up with the elements, or
      the error is that of the first element that fails. */
  lemma {:induction false} MapUntilErrorSpec<A, B, E>(f: A -> Result<B, E>, xs: seq<A>)
    ensures MapUntilError(f, xs).Ok? <==> forall i :: 0 <= i < |xs| ==> f(xs[i]).Ok?
    ensures MapUntilError(f, xs).Ok? ==>
      && |MapUntilError(f, xs).value| == |xs|
      && forall i :: 0 <= i < |xs| ==> f(xs[i]) == Ok(MapUntilError(f, xs).value[i])
    ensures MapUntilError(f, xs).Err? ==>
      exists k :: 0 <= k < |xs| && f(xs[k]) == Err(MapUntilError(f, xs).error)
                  && forall i :: 0 <= i < k ==> f(xs[i]).Ok?
  {
    if xs != [] {
      var n := |xs| - 1;
      var init := xs[..n];
      MapUntilErrorSpec(f, init);
      assert forall i :: 0 <= i < n ==> init[i] == xs[i];
      if MapUntilError(f, init).Err? {
        var k :| 0 <= k < n && f(init[k]) == Err(MapUntilError(f, init).error)
                 && forall i :: 0 <= i < k ==> f(init[i]).Ok?;
        assert f(xs[k]) == Err(MapUntilError(f, xs).error);
      } else if f(xs[n]).Err? {
        assert f(xs[n]) == Err(MapUntilError(f, xs).error);
      }
    }
  }

  /** Once a prefix fails, the whole run fails with the same error. */
  lemma {:induction false} MapUntilErrorStops<A, B, E>(f: A -> Result<B, E>, xs: seq<A>, k: nat)
    requires k <= |xs| && MapUntilError(f, xs[..k]).Err?
    ensures MapUntilError(f, xs) == MapUntilError(f, xs[..k])
    decreases |xs| - k
  {
    if k < |xs| {
      assert xs[..k + 1][..k] == xs[..k];
      MapUntilErrorStops(f, xs, k + 1);
    } else {
      assert xs[..k] == xs;
    }
  }

  /** `get_events` after the page is parsed: the blocks are built one by one
      in document order, and the first incomplete block ends the run. */
  method GetEvents(blocks: seq<Block>) returns (r: Result<seq<Event>, ExtractError>)
    ensures r == MapUntilError(BuildEvent, blocks)
  {
    var events: seq<Event> := [];
    for k := 0 to |blocks|
      invariant MapUntilError(BuildEvent, blocks[..k]) == Ok(events)
    {
      assert blocks[..k + 1][..k] == blocks[..k];
      var e := BuildEvent(blocks[k]);
      if e.Err? {
        r := Err(e.error);
        MapUntilErrorStops(BuildEvent, blocks, k + 1);
        return;
      }
      events := events + [e.value];
    }
    assert blocks[..|blocks|] == blocks;
    r := Ok(events);
  }

  /** What `get_events` yields: one event per block, in document order, when
      every block is complete; otherwise the error of the first incomplete
      block, and no events at all. */
  lemma GetEventsResult(blocks: seq<Block>)
    ensures var r := MapUntilError(BuildEvent, blocks);
      && (r.Ok? <==> forall i :: 0 <= i < |blocks| ==> Complete(blocks[i]))
      && (r.Ok? ==> |r.value| == |blocks|
                    && forall i :: 0 <= i < |blocks| ==> BuildEvent(blocks[i]) == Ok(r.value[i]))
      && (r.Err? ==> exists k :: 0 <= k < |blocks| && BuildEvent(blocks[k]) == Err(r.error)
                                 && forall i :: 0 <= i < k ==> Complete(blocks[i]))
  {
    MapUntilErrorSpec(BuildEvent, blocks);
  }
}
