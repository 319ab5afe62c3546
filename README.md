# RÚV schedule listings — a Dafny model

The program is a small web front-end for the RÚV television schedule. It
fetches the day's schedule from a public JSON feed and renders it as HTML
fragments. Its one piece of logic is the `Listing` record in `main.py`.
Each record of the feed's `results` list becomes a `Listing`. Construction
renames `live` to `is_live`, parses `startTime`, and strips leading and
trailing whitespace from every string field. The page then reads three
derived properties:

- `is_repeat`: the description ends with the literal text `" e."`, the
  Icelandic mark of a rebroadcast;
- `stripped_description`: `description.rstrip(" e.")`;
- `time`: the start time formatted as `%H:%M`.

This project models that record and the list comprehension that builds one
listing per feed record. It proves what each derived field means.

- `pystr.dfy` (module `PyStr`) holds Python's `rstrip(chars)`, `strip()` and
  `endswith(suffix)` on `seq<char>`. Python reads the argument of `rstrip` as
  a set of characters, so `RStrip` takes a `set<char>`. It drops the longest
  trailing run of characters drawn from that set, in any order.
  `Whitespace` is the exact set of the 29 code points for which Python 3's
  `str.isspace` is true; `strip()` removes these.
- `timefmt.dfy` (module `TimeFormat`) holds the `%H:%M` rendering. A start
  time is modelled by the only fields that format reads: an hour 0–23 and a
  minute 0–59. `ParseTime` is the inverse of `Time`: `ParseTimeOfTime` and
  `TimeOfParseTime` prove both round trips.
- `listing.dfy` (module `Schedule`) holds the feed record, the normalised
  listing, its derived fields, the batch map and worked examples.

The repeat rule is modelled as the code writes it: a literal-suffix test,
plus a character-set right-strip. It is not "corrected" into removing just
the suffix. So a repeat loses the `" e."` marker, and also any `'e'`, `'.'`
or `' '` characters just before it: `"Keppnine e."` is shown as `"Keppnin"`
(`Schedule.OverStripExample`). A description that is not a repeat but ends
in one of those characters is cut too.

Only the literal marker `" e."` makes a repeat. `"Kvöldfréttir ej."` is
not a repeat, because `endswith(" e.")` is false, and `rstrip(" e.")` cuts
only its final `'.'` (`Schedule.NotRepeatExample`). A description with no
marker, such as `"Fréttir"`, is not a repeat and is kept whole
(`Schedule.PlainExample`).

## Model

| member | source | states |
|---|---|---|
| `PyStr.RStrip` | main.py:29 | `rstrip(chars)` returns a prefix of its input. Every removed character belongs to `chars`. The result is empty or ends in a character outside `chars`. |
| `PyStr.RStripUnique` | main.py:29 | Those three properties determine the right-strip. Any maximal prefix that cuts only characters of `chars` equals `RStrip`. |
| `PyStr.RStripNoop` | main.py:29 | A string that is empty, or ends in a character outside `chars`, is returned unchanged. |
| `PyStr.RStripIdempotent` | main.py:29 | Right-stripping twice with the same set gives the same result as once. |
| `PyStr.RStripAppend` | main.py:28-29 | Appending characters from `chars` does not change the right-strip. |
| `PyStr.Strip` | main.py:20-21 | `strip()` returns a slice of its input that neither starts nor ends with a stripped character. Only characters of the set are cut, on either side. |
| `PyStr.StripUnique` | main.py:20-21 | Those properties determine the result. Any trimmed slice with only set characters cut around it equals `Strip`. |
| `PyStr.StripTrimmedNoop` | main.py:20-21 | Stripping an already-trimmed string is a no-op. |
| `PyStr.StripIdempotent` | main.py:20-21 | `strip` is idempotent. |
| `PyStr.EndsWith` | main.py:25 | `endswith` holds exactly when the suffix is no longer than the string and equals the same number of characters at the end of the string. |
| `TimeFormat.Pad2` | main.py:33 | `%H`/`%M` produce exactly two decimal digits that read back as the number. There is a leading `'0'` exactly when the number is below ten. |
| `TimeFormat.Time` | main.py:32-33 | `%H:%M` is 5 characters with `':'` at index 2. The hour digits read back as the hour (first digit at most `'2'`). The minute digits read back as the minute (first digit at most `'5'`). |
| `TimeFormat.ParseTimeOfTime` | main.py:33 | Reading a formatted time back gives the original hour and minute. |
| `TimeFormat.TimeOfParseTime` | main.py:33 | Every string that reads as a valid `HH:MM` time is the formatting of that time. |
| `TimeFormat.TimeInjective` | main.py:33 | Different start times are shown differently. |
| `TimeFormat.TimeExamples` | main.py:33 | 19:30 is shown as `"19:30"`, 7:05 as `"07:05"` and midnight as `"00:00"`. |
| `Schedule.FromRaw` | main.py:14-21 | A constructed listing has trimmed title and description. Each is the raw text with only whitespace cut from its ends. `is_live` equals `live`. The start time is kept. |
| `Schedule.FromRawOfTrimmed` | main.py:14-21 | A record whose text is already trimmed passes through construction unchanged. |
| `Schedule.FromRawIdempotent` | main.py:14-21 | Constructing a listing from a listing's own fields gives the same listing. |
| `Schedule.IsRepeat` | main.py:23-25 | `is_repeat` is true exactly when the description has at least 3 characters and they end with `' '`, `'e'`, `'.'` in that order. |
| `Schedule.StrippedDescription` | main.py:27-29 | `stripped_description` is a prefix of the description. Every removed character is `' '`, `'e'` or `'.'`. The result is empty or ends in another character. A description not ending in one of the three is kept whole. |
| `Schedule.StrippedIdempotent` | main.py:29 | Applying `rstrip(" e.")` to the stripped description changes nothing. |
| `Schedule.RepeatStripsMarker` | main.py:24-29 | For a repeat, the stripped description is a prefix of the description minus its last three characters. So it is at least 3 characters shorter. |
| `Schedule.MarkedRepeat` | main.py:23-29 | A body that does not end in `' '`, `'e'` or `'.'`, followed by `" e."`, is a repeat. Its stripped description is exactly that body. |
| `Schedule.DisplayTime` | main.py:31-33 | `time` is 5 characters with `':'` at index 2, and it reads back as the listing's start time. |
| `Schedule.FromRawAll` | main.py:45 | The list comprehension yields one listing per feed record. The listing at each position is built from the record at that position. |
| `Schedule.FromRawAllAppend` | main.py:45 | The map preserves order: mapping a concatenation gives the concatenation of the mapped parts. |
| `Schedule.FromRawAllFields` | main.py:45 | Each listing's `is_live` and start time come from the record at the same position. Its title is that record's title, whitespace-stripped. |
| `Schedule.RepeatExamples` | main.py:23-29 | `"Fréttir e."` is a repeat, shown as `"Fréttir"`. `"Fréttir, e."` is a repeat, shown as `"Fréttir,"`. |
| `Schedule.OverStripExample` | main.py:23-29 | `"Keppnine e."` is a repeat, shown as `"Keppnin"`: the character-set strip also removes the word's final `'e'`. |
| `Schedule.PlainExample` | main.py:23-29 | `"Fréttir"` is not a repeat and is kept whole. |
| `Schedule.NotRepeatExample` | main.py:23-29 | `"Kvöldfréttir ej."` is not a repeat. Only its final `'.'` is stripped. |
| `Schedule.SampleRecordExample` | main.py:14-21 | The sample record `" Veður e.\n"` / `"Veður "` at 20:00 is built with trimmed description `"Veður e."` and title `"Veður"`. |
| `Schedule.SampleListingDisplay` | main.py:23-33 | That listing is shown at `"20:00"`, as a repeat, with the description `"Veður"`. |

## Left out

- The HTTP fetch in `get_listings` (main.py:39-48) is left out: it is asynchronous network I/O through httpx. Its error policy is also left out. It catches transport errors, undecodable JSON and a missing `results` key, logs them, and returns an empty list. That policy depends on foreign exception types.
- Parsing `startTime` from ISO-8601 text into a `datetime` (main.py:17) is left out. That is library behaviour. A feed record carries an already-parsed hour and minute, and the date, seconds and time zone are dropped because `%H:%M` does not read them. A record whose time does not parse, or whose fields are missing or of the wrong type, makes pydantic raise. That error ends the whole comprehension. The model has no such records.
- Pydantic's type coercion (for example of `live` to a boolean) and its alias machinery are left out, apart from the plain rename of `live` to `is_live` (main.py:16).
- The FastAPI application, its two routes and the Jinja2 templates (main.py:51-68) are web and presentation plumbing, and are left out.
- The Icelandic, locale-formatted date on the home page (main.py:59) comes from the Babel library with its locale data, and is left out.
- Python strings can hold lone surrogate code points. Dafny's `char` cannot, so such strings are outside the model.

