# What's new in the charm store — a Dafny model

`cs-whats-new.py` builds a daily HTML page for the Juju charm store. It reads
the ids of the charms published on a given date, parses each charm's revision
from its id and asks the store whether it is promulgated ("recommended"). It
sorts the charms into four lists and renders each list as a grid of charm
cards. This project models that pipeline and proves what it does.

The model has these modules:

- `Strings` models the three Python 2 builtins the script relies on:
  - `str.split`, proved against `Join`;
  - `str.replace`, whose contract and `ReplaceLeftmost` together fix its
    result on every input;
  - `int()` on a string, proved against a grammar of accepted literals.
- `Charms` models:
  - revision parsing (`getCharmRevisionFromId`);
  - id normalisation, which removes every non-overlapping `cs:`, scanning
    left to right; the result can still contain `cs:`;
  - the info dictionary built by `getCharmInfo`, as a loop over the published ids.
- `CharmStore` models the two query URLs and proves that the date or id can be
  read back from each.
- `Classify` models `filterNew`, `filterUpdatedRevisions` and their four
  wrappers. It proves that the four lists partition the dictionary's keys.
- `Report` models `processHtmlRows` and `generateHtml`. The page is described
  as a sequence of fragments: fixed markup, row breaks and cards. Rendering
  those fragments gives exactly the text the script writes. The fragments make
  it possible to state which cards appear and where rows break, even though
  the ids are pasted into the markup without escaping.
- `WhatsNew` is the body of `main` without its I/O. It proves that every
  published charm gets exactly one card, and it works through a two-record
  example.

Modelling decisions:

- The promulgation lookup (an HTTP request) is a function parameter
  `isPromulgated: string -> bool`.
- Python 2 leaves the dictionary's key order unspecified. The order is a
  parameter `order`: a sequence holding every key exactly once, shared by all
  four filters.
- The changes feed is given as the sequence of its records' `Id` strings.

Two things the code does that a reader might not expect:

- Normalisation is not idempotent. `"cscs::"` becomes `"cs:"`, which becomes
  `""` (`Charms.NormaliseNotIdempotent`).
- The dictionary keys keep the revision suffix. A record `cs:foo-0` is stored
  and shown as `foo-0`, not `foo` (`WhatsNew.FooBarScenario`).

## Model

| member | source | states |
|---|---|---|
| Strings.Split | cs-whats-new.py:17 | `str.split('-')` gives at least one part, no part holds the separator, and the parts joined with the separator give back the id |
| Strings.SplitJoin | cs-whats-new.py:17 | splitting undoes joining whenever no part holds the separator |
| Strings.LastPartAfterLastSeparator | cs-whats-new.py:17-18 | `parts[-1]` is the text after the last `-` |
| Strings.ParseIntAcceptsLiteral | cs-whats-new.py:19-20 | `int()` accepts every literal made of optional white space, an optional sign, digits and optional white space, and returns the value that literal denotes |
| Strings.ParseInt | cs-whats-new.py:20 | whatever `int()` accepts is a literal of that grammar, and the result is the value the literal denotes; everything else raises, which is modelled as `None` |
| Strings.ParseIntWithoutMinus | cs-whats-new.py:19-20 | text without a minus sign never parses to a negative number |
| Strings.ParseIntRejectsLeadingOther | cs-whats-new.py:19-22 | text starting with anything but white space, a sign or a digit is rejected |
| Strings.Replace | cs-whats-new.py:49 | `replace` leaves a text without the pattern unchanged, and every character of the result comes from the text or from the replacement |
| Strings.ReplaceLeftmost | cs-whats-new.py:49 | the first occurrence that no earlier one overlaps is replaced, and the scan resumes just after it |
| Strings.DeleteShortens | cs-whats-new.py:49 | `replace('cs:', '')` never lengthens an id, and it shortens every id that contains `cs:` |
| Strings.DeleteUnchangedIff | cs-whats-new.py:49 | `replace` with an empty replacement leaves an id unchanged exactly when the pattern does not occur in it |
| Charms.GetCharmRevisionFromId | cs-whats-new.py:12-22 | the revision, when there is one, is never negative, because the last part holds no `-` |
| Charms.RevisionOfLastSegment | cs-whats-new.py:17-22 | the revision of `name-segment` is `int(segment)`, or `None` if that raises, whatever `name` is |
| Charms.RevisionOfUndashedId | cs-whats-new.py:17-22 | an id with no `-` has the whole id parsed |
| Charms.RevisionExamples | cs-whats-new.py:12-22 | `foo-12` gives 12; `foo-bar` and `justid` give `None` |
| Charms.NormaliseId | cs-whats-new.py:49 | normalising never lengthens an id, and leaves it unchanged exactly when it contains no `cs:` |
| Charms.NormaliseDropsFirst | cs-whats-new.py:49 | the first `cs:` goes when no earlier one overlaps it, and normalising carries on in the text after it |
| Charms.NormaliseEveryScheme | cs-whats-new.py:49 | both `cs:` in `a-cs:b-cs:c` are removed, giving `a-b-c` |
| Charms.NormaliseDropsScheme | cs-whats-new.py:49 | `cs:` followed by a name with no `cs:` in it normalises to the name |
| Charms.NormaliseNotIdempotent | cs-whats-new.py:49 | normalising twice can differ from normalising once |
| Charms.CharmInfoMapKeys | cs-whats-new.py:46-53 | the dictionary's keys are exactly the normalised ids of the records |
| Charms.CharmInfoMapValues | cs-whats-new.py:50-53 | each key holds its parsed revision and the store's promulgation answer for it |
| Charms.GetCharmInfo | cs-whats-new.py:42-56 | the loop builds the dictionary of the records stored in order, so a later duplicate overwrites an earlier one; its keys and values are as above |
| CharmStore.ChangesUrl | cs-whats-new.py:141 | the date can be read back from the changes URL |
| CharmStore.PromulgatedUrl | cs-whats-new.py:29 | the charm id can be read back from the promulgation URL |
| CharmStore.ChangesUrlRoundTrip | cs-whats-new.py:141 | the date can be read back from the changes URL, and only that URL yields that date |
| CharmStore.PromulgatedUrlRoundTrip | cs-whats-new.py:29 | the charm id can be read back from the promulgation URL, and only that URL yields that id |
| Classify.FilterNew | cs-whats-new.py:59-68 | returns exactly the keys with revision 0 and the requested promulgation flag, each once, in key order |
| Classify.FilterUpdatedRevisions | cs-whats-new.py:83-92 | returns exactly the keys whose revision is not 0 (including no revision) and that have the requested flag, each once, in key order |
| Classify.GetNewPromulgated | cs-whats-new.py:71-74 | new recommended charms: revision 0 and promulgated |
| Classify.GetNewCommunity | cs-whats-new.py:77-80 | new community charms: revision 0 and not promulgated |
| Classify.GetUpdatedPromulgated | cs-whats-new.py:95-96 | updated recommended charms: revision not 0 and promulgated |
| Classify.GetUpdatedCommunity | cs-whats-new.py:99-100 | updated community charms: revision not 0 and not promulgated |
| Classify.SelectMembers | cs-whats-new.py:63-66 | a key is kept exactly when its info passes the filter's test |
| Classify.SelectIsSubsequence | cs-whats-new.py:63-66 | a filter's result keeps the keys in iteration order |
| Classify.SelectDistinct | cs-whats-new.py:63-66 | a filter's result holds each key at most once |
| Classify.SelectionsCoverOrder | cs-whats-new.py:65 | the four filters together return every key exactly as often as the iteration yields it |
| Classify.ClassificationPartitions | cs-whats-new.py:155-158 | the four lists are pairwise disjoint, together hold every key once, and their lengths add up to the number of keys |
| Classify.UnparsedRevisionIsUpdated | cs-whats-new.py:65 | an id whose revision did not parse is always in an "updated" list |
| Report.ProcessHtmlRows | cs-whats-new.py:103-112 | the loop with its position counter produces the table text |
| Report.GridCards | cs-whats-new.py:107-110 | the grid holds one card per charm, in input order, with the id inserted unescaped |
| Report.GridRows | cs-whats-new.py:107-109 | for a positive width the grid is the charms cut into rows of that width, each row opened by one `</tr><tr>`, so there are ⌈len/n⌉ breaks |
| Report.ChunksShape | cs-whats-new.py:107-109 | every row but the last is full, the last holds between 1 and n cards, and the rows together are the charms |
| Report.TableRowBreaks | cs-whats-new.py:103-112 | a table opens one row per n cards, rounding up |
| Report.NineCardsFourToARow | cs-whats-new.py:107-109 | nine cards four to a row make rows of 4, 4 and 1 |
| Report.EmptyTable | cs-whats-new.py:103-112 | an empty list yields `<table><tr>\n</tr></table>\n` |
| Report.GenerateHtml | cs-whats-new.py:115-133 | the page built by successive appends is the rendering of the report's fragments |
| Report.RenderReport | cs-whats-new.py:117-132 | the page is the page header, script and dated `h1`, then the four headings each followed by its table at width 4, then `</html>` |
| Report.ReportCards | cs-whats-new.py:121-130 | the page shows exactly the four lists' cards: new recommended, new community, updated recommended, updated community, each list in order |
| Report.ReportSkeleton | cs-whats-new.py:117-132 | apart from cards and row breaks, the page is fixed markup that depends only on the date, with no newline after the second heading |
| WhatsNew.WhatsNewPage | cs-whats-new.py:154-161 | the info map, the four lists and the page, computed in the order `main` computes them |
| WhatsNew.EveryPublishedCharmOnce | cs-whats-new.py:154-161 | every charm published that day gets exactly one card on the page, and no other id does |
| WhatsNew.FooBarScenario | cs-whats-new.py:42-92 | records `cs:foo-0` (promulgated) and `cs:bar-3` (not promulgated) give `[foo-0]` new recommended, `[bar-3]` updated community, and two empty lists |

## Left out

- HTTP requests, status checks and JSON decoding in `checkIfPromulgated` and
  `fetchChanges` (cs-whats-new.py:25-39, 136-147). These are network I/O.
  - The promulgation answer is the parameter `isPromulgated`.
  - The feed is given as the records' `Id` strings.
  - A failed lookup answers `False`; this is one possible value of the parameter.
  - A JSON `Promulgated` value that is not a boolean is not modelled.
- `main`'s argument handling, log file and output file (cs-whats-new.py:149-153, 162-166). The date is a parameter.
- `print` and `logging` calls. They only produce diagnostics.
- One promulgation lookup per record (cs-whats-new.py:52). The source asks the
  store again for every record, and a failed request answers `False`
  (cs-whats-new.py:33-35), so two records with the same id can get different
  answers. In the model the answer is a function of the id, so a later
  duplicate that overwrites an earlier one never changes the stored value.
- `getCharmInfo(None)` after a failed fetch raises an exception. It is not modelled.
- check-charm-urls.py is not part of this model. It counts HTTP outcomes in a global dictionary and has no behaviour to state once the network is abstracted.
- Strings.ParseInt: Python 2's `int()` also accepts white space between the sign and the digits, and Unicode digits and Unicode white space. The ids arrive as Unicode strings from the JSON feed. The model accepts only ASCII white space around an optional sign followed directly by ASCII digits.
- Strings.Split: only a one-character separator is modelled, which is the only kind the script uses.
- The dictionary's iteration order is a parameter and is not computed. Python 2's hash order is an implementation detail.
- Python's `%` and Dafny's `%` differ for a negative width, but they agree on whether the remainder is 0. A width of 0 with a non-empty list raises `ZeroDivisionError` in Python; `processHtmlRows` requires a non-zero width only when the list is non-empty.
