/**
 * The `Listing` record of the RÚV schedule page: one TV-schedule entry as the
 * upstream feed sends it (`RawListing`), the normalised record built from it,
 * the three display fields derived from that record, and the per-record map
 * that turns the feed's `results` list into listings.
 *
 * Construction renames `live` to `isLive`, keeps the parsed start time, and
 * trims leading and trailing whitespace from every text field.  The derived
 * fields are
 *   - `IsRepeat`: the description ends with the literal text " e.";
 *   - `StrippedDescription`: the description right-stripped of every trailing
 *     character from the SET {' ', 'e', '.'} (Python's `rstrip(" e.")`), which
 *     can cut more than the " e." marker;
 *   - `DisplayTime`: the start time as `HH:MM`.
 */
module Schedule {
  import opened PyStr
  import opened TimeFormat

  /** One record of the feed's `results` list, with its start time already
      parsed. */
  datatype RawListing = RawListing(description: string, live: bool, startTime: StartTime, title: string)

  /** The normalised listing. */
  datatype Listing = Listing(description: string, isLive: bool, startTime: StartTime, title: string)

  /** The characters `stripped_description` removes from the right. */
  const RepeatMarkChars: set<char> := {' ', 'e', '.'}

  /** The literal repeat marker `is_repeat` looks for. */
  const RepeatMarker: string := " e."

  /** The invariant every constructed listing satisfies: its text fields carry
      no leading or trailing whitespace. */
  predicate Normalised(l: Listing) {
    Trimmed(l.title, Whitespace) && Trimmed(l.description, Whitespace)
  }

  /** Builds a listing from a feed record: `live` becomes `isLive`, the start
      time is kept, and both text fields are whitespace-stripped.  A record
      whose text is already trimmed passes through unchanged. */
  function FromRaw(raw: RawListing): (l: Listing)
    ensures Normalised(l)
    ensures l.isLive == raw.live && l.startTime == raw.startTime
    ensures exists i :: StripsTo(raw.title, l.title, i, Whitespace)
    ensures exists i :: StripsTo(raw.description, l.description, i, Whitespace)
  {
    Listing(Strip(raw.description, Whitespace), raw.live, raw.startTime, Strip(raw.title, Whitespace))
  }

  /** `is_repeat`: the description ends with " e.". */
  function IsRepeat(l: Listing): (b: bool)
    ensures b <==> var d := l.description;
      |d| >= 3 && d[|d| - 3] == ' ' && d[|d| - 2] == 'e' && d[|d| - 1] == '.'
  {
    var d := l.description;
    assert |d| >= 3 ==> d[|d| - 3..] == [d[|d| - 3], d[|d| - 2], d[|d| - 1]];
    EndsWith(d, RepeatMarker)
  }

  /** `stripped_description`: the description with its trailing run of ' ',
      'e' and '.' characters removed.  It is a prefix of the description,
      every removed character is one of the three, and it stops at the last
      character that is not; a description not ending in one of them is kept
      whole. */
  function StrippedDescription(l: Listing): (r: string)
    ensures IsPrefix(r, l.description)
    ensures forall k | |r| <= k < |l.description| :: l.description[k] in RepeatMarkChars
    ensures r == [] || r[|r| - 1] !in RepeatMarkChars
    ensures l.description == [] || l.description[|l.description| - 1] !in RepeatMarkChars
            ==> r == l.description
  {
    var r := RStrip(l.description, RepeatMarkChars);
    assert forall k | |r| <= k < |l.description| :: l.description[k] in RepeatMarkChars by {
      forall k | |r| <= k < |l.description| ensures l.description[k] in RepeatMarkChars {
        assert l.description[|r|..][k - |r|] == l.description[k];
      }
    }
    r
  }

  /** `time`: the start time as zero-padded 24-hour `HH:MM`. */
  function DisplayTime(l: Listing): (r: string)
    ensures |r| == 5 && r[2] == ':'
    ensures ParseTime(r) == Some(l.startTime)
  {
    ParseTimeOfTime(l.startTime);
    Time(l.startTime)
  }

  /** The list comprehension over the feed's `results`: one listing per
      record, in the same order. */
  function FromRawAll(raws: seq<RawListing>): (ls: seq<Listing>)
    ensures |ls| == |raws|
    ensures forall i | 0 <= i < |raws| :: ls[i] == FromRaw(raws[i])
  {
    if raws == [] then [] else [FromRaw(raws[0])] + FromRawAll(raws[1..])
  }

  // ---------------------------------------------------------------------
  // Properties

  /** Right-stripping the stripped description again changes nothing. */
  lemma StrippedIdempotent(l: Listing)
    ensures RStrip(StrippedDescription(l), RepeatMarkChars) == StrippedDescription(l)
  {
    RStripNoop(StrippedDescription(l), RepeatMarkChars);
  }

  /** On a repeat, the " e." marker is gone and possibly more: the stripped
      description is a prefix of the description without its last three
      characters. */
  lemma RepeatStripsMarker(l: Listing)
    requires IsRepeat(l)
    ensures |StrippedDescription(l)| <= |l.description| - 3
    ensures IsPrefix(StrippedDescription(l), l.description[..|l.description| - 3])
  {
    var d := l.description;
    var body := d[..|d| - 3];
    assert d == body + RepeatMarker;
    RStripAppend(body, RepeatMarker, RepeatMarkChars);
  }

  /** A record whose text is already trimmed passes through unchanged. */
  lemma FromRawOfTrimmed(raw: RawListing)
    requires Trimmed(raw.title, Whitespace) && Trimmed(raw.description, Whitespace)
    ensures FromRaw(raw) == Listing(raw.description, raw.live, raw.startTime, raw.title)
  {
    StripTrimmedNoop(raw.title, Whitespace);
    StripTrimmedNoop(raw.description, Whitespace);
  }

  /** Normalising is idempotent: feeding a listing's fields back in as a
      record yields the same listing. */
  lemma FromRawIdempotent(raw: RawListing)
    ensures var l := FromRaw(raw);
      FromRaw(RawListing(l.description, l.isLive, l.startTime, l.title)) == l
  {
    var l := FromRaw(raw);
    FromRawOfTrimmed(RawListing(l.description, l.isLive, l.startTime, l.title));
  }

  /** The map is order-preserving: it distributes over concatenation. */
  lemma {:induction false} FromRawAllAppend(a: seq<RawListing>, b: seq<RawListing>)
    ensures FromRawAll(a + b) == FromRawAll(a) + FromRawAll(b)
  {
    if a != [] {
      assert (a + b)[1..] == a[1..] + b;
      FromRawAllAppend(a[1..], b);
    }
  }

  /** Each listing carries the liveness flag and the trimmed title of the
      record at the same position. */
  lemma FromRawAllFields(raws: seq<RawListing>, i: int)
    requires 0 <= i < |raws|
    ensures FromRawAll(raws)[i].isLive == raws[i].live
    ensures FromRawAll(raws)[i].title == Strip(raws[i].title, Whitespace)
    ensures FromRawAll(raws)[i].startTime == raws[i].startTime
  {
  }

  /** The intended case: a description made of a body that does not end in
      ' ', 'e' or '.', followed by the " e." marker, is a repeat whose
      stripped description is exactly that body. */
  lemma MarkedRepeat(l: Listing, body: string)
    requires l.description == body + RepeatMarker
    requires body == [] || body[|body| - 1] !in RepeatMarkChars
    ensures IsRepeat(l)
    ensures StrippedDescription(l) == body
  {
    RStripNoop(body, RepeatMarkChars);
    RStripAppend(body, RepeatMarker, RepeatMarkChars);
  }

  // ---------------------------------------------------------------------
  // Worked examples

  /** The common repeats: "Fréttir e." is shown as "Fréttir", and
      punctuation before the marker is kept, so "Fréttir, e." is shown as
      "Fréttir,". */
  lemma RepeatExamples()
    ensures var l := Listing("Fréttir e.", false, StartTime(19, 0), "Fréttir");
      IsRepeat(l) && StrippedDescription(l) == "Fréttir"
    ensures var l := Listing("Fréttir, e.", false, StartTime(19, 0), "Fréttir");
      IsRepeat(l) && StrippedDescription(l) == "Fréttir,"
  {
    MarkedRepeat(Listing("Fréttir e.", false, StartTime(19, 0), "Fréttir"), "Fréttir");
    MarkedRepeat(Listing("Fréttir, e.", false, StartTime(19, 0), "Fréttir"), "Fréttir,");
  }

  /** The set semantics of `rstrip` also eats the final 'e' of the word before
      the marker: "Keppnine e." becomes "Keppnin". */
  lemma OverStripExample()
    ensures var l := Listing("Keppnine e.", false, StartTime(19, 0), "Keppni");
      IsRepeat(l) && StrippedDescription(l) == "Keppnin"
  {
    var l := Listing("Keppnine e.", false, StartTime(19, 0), "Keppni");
    RStripNoop("Keppnin", RepeatMarkChars);
    RStripAppend("Keppnin", "e e.", RepeatMarkChars);
    assert l.description == "Keppnin" + "e e.";
  }

  /** A marker other than the literal " e." is not a repeat, and only the
      final '.' is stripped: "Kvöldfréttir ej." becomes "Kvöldfréttir ej". */
  lemma NotRepeatExample()
    ensures var l := Listing("Kvöldfréttir ej.", false, StartTime(19, 0), "Kvöldfréttir");
      !IsRepeat(l) && StrippedDescription(l) == "Kvöldfréttir ej"
  {
    var l := Listing("Kvöldfréttir ej.", false, StartTime(19, 0), "Kvöldfréttir");
    RStripNoop("Kvöldfréttir ej", RepeatMarkChars);
    RStripAppend("Kvöldfréttir ej", ".", RepeatMarkChars);
    assert l.description == "Kvöldfréttir ej" + ".";
  }

  /** "Fréttir" carries no marker: it is not a repeat and is kept whole. */
  lemma PlainExample()
    ensures var l := Listing("Fréttir", false, StartTime(19, 0), "Fréttir");
      !IsRepeat(l) && StrippedDescription(l) == "Fréttir"
  {
    RStripNoop("Fréttir", RepeatMarkChars);
  }

  /** The sample feed record: the weather at 20:00, marked as a repeat, its
      text padded with whitespace. */
  const SampleRecord := RawListing(" Veður e.\n", false, StartTime(20, 0), "Veður ")

  /** The sample's title loses its trailing space. */
  lemma SampleTitleTrimmed()
    ensures FromRaw(SampleRecord).title == "Veður"
  {
    StripUnique(SampleRecord.title, Whitespace, "Veður", 0);
  }

  /** The sample's description loses its leading space and trailing newline. */
  lemma SampleDescriptionTrimmed()
    ensures FromRaw(SampleRecord).description == "Veður e."
  {
    StripUnique(SampleRecord.description, Whitespace, "Veður e.", 1);
  }

  /** The listing the sample record normalises to is shown at "20:00", as a
      repeat, with the description "Veður". */
  lemma SampleListingDisplay()
    ensures var l := Listing("Veður e.", false, StartTime(20, 0), "Veður");
      DisplayTime(l) == "20:00" && IsRepeat(l) && StrippedDescription(l) == "Veður"
  {
    MarkedRepeat(Listing("Veður e.", false, StartTime(20, 0), "Veður"), "Veður");
  }

  /** The sample record normalises to that listing. */
  lemma SampleRecordExample()
    ensures FromRaw(SampleRecord) == Listing("Veður e.", false, StartTime(20, 0), "Veður")
  {
    SampleTitleTrimmed();
    SampleDescriptionTrimmed();
  }
}
