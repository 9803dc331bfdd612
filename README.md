# spin2spot: playlist text and dispatch key, in Dafny

spin2spot turns a radio-show or concert playlist page into a playlist on a
music-streaming service. This project models two small pure pieces of it and
proves what they produce.

- **The description and title builder** (`spin2spot/descriptions.py`). It
  takes an episode record: a map with the optional keys `venue`, `datetime`,
  `station`, `dj` and `title`. From it, it builds:
  - the playlist description, e.g. `"Friday at 9:00am on WERA with Lauree"`,
    `"Friday on WERA"` (a time of exactly 00:00 means no time was published)
    or `"At TV Eye"`;
  - the playlist title, e.g. `"Spin Cycle: August 27, 2021"`.
- **The dispatch key** (`parse_domain` in `spin2spot/retrieval.py`). It is the
  last two dot-separated labels of a URL's network location, e.g.
  `"spinitron.com"` for `"https://sub.spinitron.com/WZBC/pl/50067"`. A URL
  with no network location is read again with `http://` in front.

Files:

- `wrappers.dfy`: `Option`, for a key that may be missing from the record.
- `text.dfy`: the Python string operations both pieces are built from.
  - `str.isspace` (the exact set of whitespace characters Python's `str.split()` uses), `str.split()` and `sep.join`.
  - `str.capitalize` on ASCII.
  - Zero-padded decimal fields (`%02d`, `%04d`) and unpadded numerals.
- `descriptions.dfy`: the episode record (`Episode`, `Moment`, `Date`, `Time`)
  and the five functions of `descriptions.py`: `DayAndTime`,
  `FormatStation`, `FormatDj`, `PlaylistDescription` and `PlaylistTitle`.
  - A reference definition, `DescriptionWords`, builds the description phrase by phrase.
  - Parsers read the clock text and the title back, for round-trip lemmas.
- `retrieval.dfy`: `Netloc` (the `netloc` that `urllib.parse.urlsplit` finds),
  `str.split('.')`, `[-2:]`, `'.'.join` and `ParseDomain`.

The record's `datetime` value is a `Moment`: either a `datetime.datetime`
(`DateTime`) or a plain `datetime.date` (`DateOnly`). The day/time phrase is
empty for a `DateOnly`, as the source's `isinstance(dt, datetime.datetime)`
test makes it. The title still formats it, because a `date` also has `strftime`.

The weekday is a field of `Date` and is not computed from the calendar date.
Weekday and month names are the English (C locale) names.

Two behaviours of the code worth noting:

- A missing `title` or `datetime` raises `KeyError` (descriptions.py:47), so
  `PlaylistTitle` requires both.
- `str.capitalize` lower-cases everything after the first character. The
  model does the same, and proves that the word it is applied to is always a
  weekday name, `on` or `with`.

## Model

| member | source | states |
|---|---|---|
| `Descriptions.IsMidnight` | spin2spot/descriptions.py:9-10 | A time counts as midnight exactly when it equals `time(0, 0)`: hour, minute, second and microsecond all zero. |
| `Descriptions.ClockText` | spin2spot/descriptions.py:13-14 | The clock text has 6 or 7 characters, never starts with `0`, and ends in `am` for hours 0-11 and in `pm` for hours 12-23. The lemmas below pin its full shape. |
| `Descriptions.ClockTextParts` | spin2spot/descriptions.py:13-14 | The clock text is the 12-hour hour without a leading zero, then `:`, then the two-digit minute, then `am` or `pm`. |
| `Descriptions.HourPadded` | spin2spot/descriptions.py:13-14 | `%I` writes the hours 1-9 with one leading `0` and the hours 10-12 as they are, which is why removing one leading `0` gives the unpadded hour. |
| `Descriptions.ClockTextShape` | spin2spot/descriptions.py:13-14 | The clock text has the shape `ClockShaped` describes. The hour part has one or two digits and does not start with `0`. Its value is 1..12, and 12 for hours 0 and 12. It is followed by `:` and a two-digit minute equal to the time's minute. The text ends in `am` for hours 0-11 and in `pm` for hours 12-23. |
| `Descriptions.ClockRoundTrip` | spin2spot/descriptions.py:13-14 | `ParseClock` reads the 24-hour hour and the minute back from the clock text, so the 12-hour text loses nothing. |
| `Descriptions.ClockTextIsWord` | spin2spot/descriptions.py:13-15 | The clock text is one whitespace-free word. |
| `Descriptions.DayAndTime` | spin2spot/descriptions.py:4-15 | The day/time phrase is `""` exactly when the value is absent or not a `datetime`. Otherwise it starts with the weekday name. `TimePhraseWords` gives its words. |
| `Descriptions.TimePhraseWords` | spin2spot/descriptions.py:4-15 | The day/time phrase is empty exactly when the datetime is absent or not a `datetime`. Its words are the weekday name alone when the time is exactly 00:00:00.000000. Otherwise they are the weekday, `at` and the clock text, so 00:00:30 is not midnight. |
| `Descriptions.FormatStation` | spin2spot/descriptions.py:18-20 | The station phrase is `""` exactly when the station is absent or `""`. Otherwise it is `on ` followed by the whole station name. |
| `Descriptions.StationPhraseWords` | spin2spot/descriptions.py:18-20 | The station phrase has no words when the station is absent or `""`. Otherwise its words are `on` followed by the station's own words. |
| `Descriptions.FormatDj` | spin2spot/descriptions.py:23-25 | The DJ phrase is `""` exactly when the DJ is absent or `""`. Otherwise it is `with ` followed by the whole DJ name. |
| `Descriptions.DjPhraseWords` | spin2spot/descriptions.py:23-25 | The DJ phrase has no words when the DJ is absent or `""`. Otherwise its words are `with` followed by the DJ's own words. |
| `Descriptions.PlaylistDescription` | spin2spot/descriptions.py:30-31 | When a venue is present, the description is exactly `"At " + venue` and every other field is ignored. |
| `Descriptions.PhraseWordsFromPhrases` | spin2spot/descriptions.py:32-40 | Joining the non-empty phrases and splitting the result gives `DescriptionWords`. These are the time, station and DJ words in that fixed order, with absent phrases skipped and whitespace runs inside names collapsed. |
| `Descriptions.PhrasesEmptyIff` | spin2spot/descriptions.py:37-39 | The joined phrases, and the reference words, are empty exactly when there is no datetime, no non-empty station and no non-empty DJ. |
| `Descriptions.DescriptionFromWords` | spin2spot/descriptions.py:28-42 | Without a venue, the description is `""` when there are no reference words. Otherwise it is the reference words, the first one capitalised, joined by single spaces. |
| `Descriptions.DescriptionEmptyIff` | spin2spot/descriptions.py:37-39 | Without a venue, the description is `""` exactly when no phrase is present. |
| `Descriptions.CapitalisedJoin` | spin2spot/descriptions.py:40-42 | Words with the first one capitalised, joined by single spaces, make a non-empty single-spaced string that splits back into the same words. |
| `Descriptions.DescriptionNormalised` | spin2spot/descriptions.py:40-42 | Without a venue, the description has no whitespace at either end and only single spaces between words. When it is non-empty, its words are the reference words with the first capitalised, and the first word is a weekday name, `On` or `With`. |
| `Descriptions.FirstWordCapitalised` | spin2spot/descriptions.py:41 | The capitalised first word is a weekday name, `On` (`"on WERA"` becomes `"On WERA"`) or `With`. |
| `Descriptions.PlaylistTitle` | spin2spot/descriptions.py:45-47 | Needs both `title` and `datetime`. The result starts with the title and is at least 14 characters longer than it (`": "` and the shortest date, e.g. `May 01, 2021`). `TitleRoundTrip` fixes the whole format. |
| `Descriptions.MonthNumberOfName` | spin2spot/descriptions.py:47 | Each full month name is found as its own month, so no two months share a name. |
| `Descriptions.DateText` | spin2spot/descriptions.py:47 | `ParseDate` reads the year, month and day back from the `"Month DD, YYYY"` text. The text is at least 12 characters long and contains no `:`, so the last `": "` of a title is the one before its date. |
| `Descriptions.TitleRoundTrip` | spin2spot/descriptions.py:47 | The title is `title + ": " + date text`. `ParseTitle` recovers both the title and the date from it, even when the title itself contains `": "`. |
| `Descriptions.TitleInjective` | spin2spot/descriptions.py:47 | Two records with the same playlist title have the same title and the same year, month and day. |
| `Text.Words` | spin2spot/descriptions.py:40 | Every word `str.split()` returns is non-empty and free of whitespace. |
| `Text.WordsAround` | spin2spot/descriptions.py:37-40 | Splitting text that has a whitespace character in the middle gives the words before it, then the words after it. No word spans that character. |
| `Text.WordsOfJoin` | spin2spot/descriptions.py:37-40 | Splitting a space-joined list gives each part's words, part after part. |
| `Text.WordsOfNonEmpty` | spin2spot/descriptions.py:37 | Dropping the empty phrases drops no words. |
| `Text.NonEmpty` | spin2spot/descriptions.py:37 | Keeps only non-empty phrases, and is empty exactly when every phrase is `""`. |
| `Text.WordsOfJoinedWords` | spin2spot/descriptions.py:40-42 | Words joined by single spaces split back into the same words. |
| `Text.JoinedWordsSingleSpaced` | spin2spot/descriptions.py:42 | Words joined by `' '` have no whitespace at either end and only single spaces between words. |
| `Text.Capitalize` | spin2spot/descriptions.py:41 | Capitalising keeps the length and puts no whitespace into a word. |
| `Text.CapitalizeFixes` | spin2spot/descriptions.py:41 | Capitalising text that is already capitalised leaves it unchanged. |
| `Text.ValueOfFixed` | spin2spot/descriptions.py:13 | A zero-padded field (`%M`, `%d`, `%Y`) reads back as the number written. |
| `Text.DecimalValue` | spin2spot/descriptions.py:14 | The unpadded numeral reads back as its number and, unless the number is 0, does not start with `0`. |
| `Retrieval.Netloc` | spin2spot/retrieval.py:7-10 | The network location contains no `/`, `?` or `#`. |
| `Retrieval.AfterSchemeOf` | spin2spot/retrieval.py:7 | Removing the scheme from `scheme:rest` leaves exactly `rest`. `NetlocWithoutScheme` shows that text with no `:` keeps everything. |
| `Retrieval.UpToDelimiter` | spin2spot/retrieval.py:7 | The result is the longest prefix without `/`, `?` or `#`: it is followed by a delimiter, or it is the whole text. |
| `Retrieval.UpToDelimiterOf` | spin2spot/retrieval.py:7 | A delimiter-free host followed by a delimiter, or by nothing, is read as exactly that host. |
| `Retrieval.NetlocWithScheme` | spin2spot/retrieval.py:7-10 | For `scheme://host` followed by nothing or by a path, query or fragment, the network location is exactly `host`. |
| `Retrieval.NetlocWithoutSlash` | spin2spot/retrieval.py:7-8 | Text without `/` has no network location, so it is always read again with `http://` in front. |
| `Retrieval.NetlocWithoutScheme` | spin2spot/retrieval.py:7-8 | A host with no `:` followed by a path, query or fragment has no network location. |
| `Retrieval.Split` | spin2spot/retrieval.py:11 | `str.split('.')` gives at least one piece and no piece contains `.`. Joining the pieces with `.` gives back the input. |
| `Retrieval.SplitJoin` | spin2spot/retrieval.py:11-12 | `'.'.join` of a non-empty list of dot-free labels splits back into the same labels, so `Split` and `Join` are inverses. |
| `Retrieval.SplitAround` | spin2spot/retrieval.py:11 | Splitting at one `.` gives the pieces before it, then the pieces after it. |
| `Retrieval.LastTwoLabels` | spin2spot/retrieval.py:11-12 | The result is a suffix of the host and has at most one `.`. It is either the whole host, or it contains a `.` and is preceded by a `.` in the host: exactly the last two labels. |
| `Retrieval.KeepsTwoLabels` | spin2spot/retrieval.py:11-12 | A host of two labels is kept whole. |
| `Retrieval.StripsSubdomains` | spin2spot/retrieval.py:11 | `sub.name.tld` gives `name.tld`, whatever `sub` is. |
| `Retrieval.ParseDomain` | spin2spot/retrieval.py:5-12 | The domain has at most one `.` and no `/`, `?` or `#`. |
| `Retrieval.ParseDomainWithScheme` | spin2spot/retrieval.py:7-12 | `scheme://host` followed by any path, query or fragment gives the last two labels of `host`. |
| `Retrieval.ParseDomainWithoutScheme` | spin2spot/retrieval.py:8-12 | A scheme-less `host` (no `:`) followed by any path, query or fragment gives the last two labels of `host`. |
| `Retrieval.ParseDomainSchemeDefault` | spin2spot/retrieval.py:8-9 | Any URL with no network location that starts with a non-empty host gives the same domain as the same URL with `http://` in front. This includes a host with a port or userinfo, such as `spinitron.com:8080/radio`. |
| `Retrieval.ParseDomainSchemeDefaultOfHost` | spin2spot/retrieval.py:8-9 | The same for a scheme-less host without `:`, followed by any path, query or fragment. |
| `Retrieval.ParseDomainOfHost` | spin2spot/retrieval.py:8-12 | Text without `/`, `?` or `#` is taken as a host, and the result is its last two labels. |
| `Retrieval.ParseDomainOfPlainHost` | spin2spot/retrieval.py:8-12 | A bare host of one or two labels comes back unchanged. |
| `Retrieval.ParseDomainIdempotent` | spin2spot/retrieval.py:5-12 | Applying `parse_domain` to its own result changes nothing. |

## Left out

- `retrieve_episode_html` (spin2spot/retrieval.py:15-18): an HTTP request, which is I/O.
- The page parsers, the site dispatcher and the track matcher. Their code is not part of this model: `spin2spot/parsers.py` holds only `ensure_is_soup`, a wrapper over BeautifulSoup.
- The command line, the entry point that calls the streaming service and prints, and the username lookup from the environment: argument parsing, I/O and environment access.
- Calendar arithmetic: the weekday is a field of `Date`, and `Date` does not check that the day exists in its month.
- Locale-dependent `strftime`: weekday and month names and `AM`/`PM` are the C-locale English ones.
- Values of the record other than strings, `datetime.datetime` and `datetime.date` (e.g. `None` stored under a key) are not modelled.
- Descriptions.PlaylistTitle: `%Y` is modelled as four zero-padded digits. Some C libraries print years below 1000 with fewer digits.
- Text.Capitalize: only ASCII letters change case. Python's full Unicode case mapping is not modelled. This is exact for the description, whose first word is always a weekday name, `on` or `with`.
- Retrieval.Netloc models these `urlsplit` steps: a scheme is an ASCII letter followed by letters, digits, `+`, `-` or `.` before the first `:`; then `//`; then the text up to the first `/`, `?` or `#`.
  - The leading-letter rule is CPython's behaviour since the late-2022 fix for gh-99418. Older releases also accepted a scheme starting with a digit, `+`, `-` or `.`, so for them `1ab://x.y.com` gave `y.com`; that behaviour is not modelled.
  - Four other behaviours of `urlsplit`, most of which vary between Python versions, are not modelled:
    - stripping leading control characters and spaces;
    - removing tab and newline characters;
    - the `ValueError` for unbalanced `[`/`]` and for non-ASCII network locations that normalise to a separator;
    - the `ValueError` for a bracketed host that is not a valid IPv6 or IPvFuture address, or that has text before `[` or after `]` other than a port. For `http://[foo]/x` the model gives `[foo]`, and for the re-read `a[b]c.com` it gives `a[b]c.com`, where `parse_domain` raises.
- Userinfo and ports are not treated specially: like the source, the model leaves them in the network location, so a port stays attached to the last label.
