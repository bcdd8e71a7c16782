# hcevents in Dafny

`hcevents.py` scrapes the event listing of a Vilnius hardcore site. It then
writes the events twice: as an iCalendar file and as an RSS feed. It keeps a
small pickle store so that each RSS item keeps the publish date it was first
seen with. This project models the logic of that script:

- the `Event` record;
- the per-block assembly loop of `get_events`: link text, URL, time label,
  description markup and text, and the title fallback;
- the end-time rule of `output_calendar` (next day, 04:00:00) and its event loop;
- the publish-date merge of `output_rss`, the item title and description
  formats, and the `lastBuildDate` maximum.

Modules, one per file:

- `Wrappers` (`wrappers.dfy`): `Option` and `Result`.
- `Text` (`text.dfy`): Python's `str.strip()`, `''.join`, `'\n'.join` and
  `s.split('\n')[0]`.
- `Civil` (`civil.dfy`): wall-clock date-times with `datetime`'s range
  (years 1 to 9999), day numbers as `date.toordinal()` computes them, and
  `+ timedelta(days=1)`.
- `Format` (`format.dfy`): the `%Y-%m-%d` and `%Y-%m-%d %H:%M` formats, with
  parsers that are proved to be their inverses.
- `Events` (`events.dfy`): the record, one page block after parsing, and the
  `get_events` loop.
- `Calendar` (`calendar.dfy`): the end time and the `output_calendar` loop.
- `Feed` (`feed.dfy`): loading the store, the merge, the items, the maximum
  and the `output_rss` run.

Effects become inputs:

- The clock is a function `clock: nat -> Timestamp`. The `k`-th reading of
  `datetime.now` returns `clock(k)`.
- The pickle file is a `StoreFile` value: missing, ending where the next
  pickle opcode would start (`pickle.load` raises EOFError, as for an empty
  file), unreadable, or holding a map. A file cut inside an opcode's argument
  raises UnpicklingError, which the script does not catch, so it counts as
  unreadable.
- The HTML page arrives already split into `Block` values. A block holds the
  date anchor (its text and `href`, each possibly absent), the parsed time
  label (possibly absent), and, for each description sibling, its serialised
  markup and its `text_content()`.

The model follows the code where the script's intended behaviour differs
from it:

- One block without its date anchor, anchor text, time label or `href` makes
  the whole extraction fail. It is not skipped.
- An unpickling error other than a missing file or end of file aborts the run.
  It does not count as an empty history.
- Events that are absent from the current fetch are dropped from the store.
- A title can be empty when both the anchor text and the description are
  white space.
- A run over no events first saves an empty store and then fails in `max`.

## Model

| member | source | states |
|---|---|---|
| Text.Strip | hcevents.py:28 | `s.strip()`: the result is `s` with only white space removed from its ends, does not start or end with white space, and is empty exactly when `s` is all white space |
| Text.Concat | hcevents.py:34 | `''.join(parts)`; Text.ConcatIsJoin relates it to `sep.join` |
| Text.Join | hcevents.py:35 | `sep.join(parts)`: the parts with the separator between neighbours |
| Text.ConcatIsJoin | hcevents.py:34-35 | `''.join` is `sep.join` with the empty separator, for every list of parts |
| Text.FirstLine | hcevents.py:39 | `split('\n')[0]`: a prefix of the text with no line break, followed either by a line break or by the end of the text |
| Text.FirstLineOfAppended | hcevents.py:35-39 | appending `'\n' + url` to the description text leaves its first line unchanged |
| Civil.NextDay | hcevents.py:59 | `+ timedelta(days=1)`: the day number goes up by one, the time of day is kept, and the result is later; it fails only on 9999-12-31, where Python overflows |
| Calendar.EndTime | hcevents.py:59 | the end time is the next calendar day at 04:00:00 with the microseconds kept, strictly after the start; it fails only for a start on 9999-12-31 |
| Calendar.OutputCalendar | hcevents.py:52-68 | one VEVENT per event, in order, with the fixed name, version and product id; uid is the url, DTSTART is the start, DTEND is its end time (after the start), DTSTAMP is the `i`-th clock reading, and summary and descriptions come from the event; it fails exactly when some end time overflows |
| Format.ZeroPadValue | hcevents.py:88 | a zero-padded field is all digits and reads back as the number |
| Format.ParseFormatDate | hcevents.py:88 | `%Y-%m-%d` reads back as the event's year, month and day |
| Format.ParseFormatDateMinute | hcevents.py:92 | `%Y-%m-%d %H:%M` reads back as the event's date, hour and minute |
| Format.FormatDateInjective | hcevents.py:88 | two times with the same `%Y-%m-%d` text fall on the same calendar day |
| Events.DescriptionBody | hcevents.py:35 | the stripped texts of the description elements, joined with line breaks and stripped again; Text.Strip gives that it neither starts nor ends with white space |
| Events.Assemble | hcevents.py:28-47 | the record keeps the block's url and time; `description_text` ends with `'\n' + url`; `description_html` is the stripped concatenation of the sibling markup |
| Events.BuildEvent | hcevents.py:26-47 | a block yields an event exactly when its anchor, anchor text, `href` and time label are all present, with the properties of Assemble |
| Events.BuildEventError | hcevents.py:27-36 | the error is the first missing part in statement order: anchor (line 27), its text (28), time label (30), then `href` (36) |
| Events.TitleRule | hcevents.py:28-39 | the title is the stripped anchor text when that is not empty; otherwise it is the first line of `description_text`, which is the first line of the stripped description body and holds no line break |
| Events.TitleEmptyIff | hcevents.py:28-39 | the title is empty exactly when the anchor text and the whole description body are white space |
| Events.MapUntilErrorSpec | hcevents.py:26-47 | a loop whose body may raise: it succeeds exactly when every element succeeds, and then its results line up with the elements; otherwise the error is that of the first failing element |
| Events.MapUntilError | hcevents.py:25-49 | the results of a loop whose body may raise, in order, up to the first error; its properties are Events.MapUntilErrorSpec |
| Events.GetEvents | hcevents.py:25-49 | the loop of `get_events` computes the block-by-block extraction that stops at the first error |
| Events.GetEventsResult | hcevents.py:25-49 | one event per block, in document order, exactly when every block is complete; otherwise the error of the first incomplete block and no events |
| Feed.LoadPubDates | hcevents.py:75-79 | the loaded store: an error exactly for a file that does not unpickle, an empty history for a missing file or one that ends early, and the saved map otherwise |
| Feed.ItemTitle | hcevents.py:88 | `"{:%Y-%m-%d} {}"`: the event's date, a space and its title; Feed.ItemTitleRoundTrip reads both back |
| Feed.ItemDescription | hcevents.py:92 | `"{:%Y-%m-%d %H:%M}\n{}"`: the event's date and minute, a line break and its markup; Feed.ItemDescriptionRoundTrip reads them back |
| Feed.ToItem | hcevents.py:87-93 | the RSS item of an event: link and guid are its url, the publish date is the one given, and title and description are Feed.ItemTitle and Feed.ItemDescription |
| Feed.ItemTitleRoundTrip | hcevents.py:88 | an item title splits back into the event's date and its title |
| Feed.ItemDescriptionRoundTrip | hcevents.py:92 | an item description splits back into the event's date and minute and its markup |
| Feed.Merge | hcevents.py:80-86 | an event that is in the loaded store keeps its stored date in the merged map |
| Feed.MergeKeys | hcevents.py:80-86 | the merged map's keys are exactly the events of this fetch, so stale entries are dropped |
| Feed.MergeAtLast | hcevents.py:81-86 | each event's merged date is the one given at its last occurrence: the stored date, or, for a new event, the clock reading taken at that point |
| Feed.MergeAllStored | hcevents.py:81-86 | when every event is already stored, the merge reads no clock and keeps exactly the stored dates of those events |
| Feed.MergeIdempotent | hcevents.py:80-86 | merging the same events again over the merged map reads no clock and gives the same map, whatever the clock says |
| Feed.MergeStep | hcevents.py:81-93 | one turn of the loop: the event enters the map with its date, the clock is read once more exactly when the event was not stored, and one item is appended |
| Feed.ItemsAt | hcevents.py:87-93 | item `i` is event `i` formatted with the publish date the loop gave it |
| Feed.MaxPubDate | hcevents.py:99 | `max` of the map's values: absent exactly when the map is empty; otherwise a value of the map that is at least every value |
| Feed.OutputRss | hcevents.py:73-102 | the run fails exactly when the store cannot be unpickled; the saved store is the merge over the loaded one; it fails in `max` exactly when there are no events; otherwise the feed has the fixed title and link, an empty description, one item per event in order, and the latest saved date as `lastBuildDate` |

## Left out

- The HTTP request, lxml parsing and XPath selection (lines 23-27, 30, 33) are not modelled. Blocks arrive already extracted.
- `dateutil` parsing of the time label (line 31) is not modelled. A label that does not parse is not modelled either.
- tzlocal (line 31): event times are local wall-clock values with no zone. Equality of events compares wall-clock fields, while Python compares aware datetimes by instant. The two differ only at a repeated hour when clocks go back.
- Calendar.OutputCalendar: DTSTART and DTEND stay in local wall-clock terms. The conversion to UTC (lines 62-63) is not modelled. DTSTAMP is a clock reading in the same timestamp type as the publish dates.
- Calendar.EndTime: the gap or repeated hour of a daylight-saving change at 04:00 is not modelled.
- iCalendar and RSS serialisation (`to_ical`, `write_xml`) and the file writes (lines 69-70, 94-95, 103-104) are not modelled. The model returns the calendar and feed values and the map that would be pickled.
- Pickle I/O (lines 75-79) is a `StoreFile` value. A pickle whose content is not a dict of events is not modelled.
- The `__main__` block (lines 106-109) only chains the three functions and is not modelled.
- Format.ParseFormatDate: `%Y` is written as four zero-padded digits. Some C libraries print years below 1000 without padding.
