/** Tag strings (lib/tags.ts): the comma-separated text a record stores, the
    list of tags parsed from it, and the master list of diary entry types. */
module Tags {
  import opened Common

  /** `s.split(sep)` for a one-character separator: the runs between
      separators, empty runs included. */
  function Split(s: string, sep: char): (r: seq<string>)
    ensures |r| == Count(s, sep) + 1
    ensures forall i | 0 <= i < |r| :: sep !in r[i]
  {
    if s == [] then [""]
    else
      var rest := Split(s[1..], sep);
      if s[0] == sep then [""] + rest
      else [[s[0]] + rest[0]] + rest[1..]
  }

  /** Occurrences of `c` in `s`. */
  function Count(s: string, c: char): nat {
    if s == [] then 0 else (if s[0] == c then 1 else 0) + Count(s[1..], c)
  }

  lemma {:induction false} CountAppend(a: string, b: string, c: char)
    ensures Count(a + b, c) == Count(a, c) + Count(b, c)
  {
    if a != [] {
      assert (a + b)[1..] == a[1..] + b;
      CountAppend(a[1..], b, c);
    } else {
      assert a + b == b;
    }
  }

  /** `parts.join(sep)`. */
  function JoinWith(parts: seq<string>, sep: string): string {
    if parts == [] then ""
    else if |parts| == 1 then parts[0]
    else parts[0] + sep + JoinWith(parts[1..], sep)
  }

  /** Joining with the separator undoes splitting. */
  lemma {:induction false} JoinSplit(s: string, sep: char)
    ensures JoinWith(Split(s, sep), [sep]) == s
  {
    if s != [] {
      JoinSplit(s[1..], sep);
      var rest := Split(s[1..], sep);
      if s[0] == sep {
        assert s == [sep] + s[1..];
      } else {
        assert s == [s[0]] + s[1..];
        if |rest| > 1 {
          assert JoinWith(rest, [sep]) == rest[0] + [sep] + JoinWith(rest[1..], [sep]);
        }
      }
    }
  }

  /** Splitting at a separator splits the two sides apart. */
  lemma {:induction false} SplitAt(a: string, b: string, sep: char)
    ensures Split(a + [sep] + b, sep) == Split(a, sep) + Split(b, sep)
  {
    if a == [] {
      assert a + [sep] + b == [sep] + b;
      assert ([sep] + b)[1..] == b;
    } else {
      assert (a + [sep] + b)[1..] == a[1..] + [sep] + b;
      SplitAt(a[1..], b, sep);
    }
  }

  lemma {:induction false} SplitNoSeparator(s: string, sep: char)
    requires sep !in s
    ensures Split(s, sep) == [s]
  {
    if s != [] {
      assert sep !in s[1..];
      SplitNoSeparator(s[1..], sep);
      assert s == [s[0]] + s[1..];
    }
  }

  /** `.map(t => t.trim())` */
  function TrimAll(parts: seq<string>): seq<string> {
    seq(|parts|, i requires 0 <= i < |parts| => Trim(parts[i]))
  }

  /** `.filter(t => t.length > 0)` */
  function NonEmpty(parts: seq<string>): (r: seq<string>)
    ensures |r| <= |parts|
    ensures forall t :: t in r <==> t in parts && t != ""
  {
    if parts == [] then []
    else if parts[0] == "" then NonEmpty(parts[1..])
    else [parts[0]] + NonEmpty(parts[1..])
  }

  /** The filter keeps the order: it works piece by piece... */
  lemma {:induction false} NonEmptyAppend(a: seq<string>, b: seq<string>)
    ensures NonEmpty(a + b) == NonEmpty(a) + NonEmpty(b)
  {
    if a != [] {
      assert (a + b)[0] == a[0] && (a + b)[1..] == a[1..] + b;
      NonEmptyAppend(a[1..], b);
    } else {
      assert a + b == b;
    }
  }

  /** ... and on one part keeps it exactly when it is not empty. */
  lemma NonEmptySingle(t: string)
    ensures NonEmpty([t]) == if t == "" then [] else [t]
  {
    assert [t][1..] == [];
  }

  /** A tag as `stringToTags` yields it. */
  predicate CleanTag(t: string) {
    t != "" && Trimmed(t) && ',' !in t
  }

  /** `stringToTags`: nothing for null or "", else the trimmed non-empty
      comma-separated segments; never more than one per comma plus one. */
  function StringToTags(str: Option<string>): (r: seq<string>)
    ensures str.None? || str.value == "" ==> r == []
    ensures forall i | 0 <= i < |r| :: CleanTag(r[i])
    ensures str.Some? ==> |r| <= Count(str.value, ',') + 1
  {
    if str.None? || str.value == "" then []
    else
      var segments := Split(str.value, ',');
      CleanSegments(segments);
      NonEmpty(TrimAll(segments))
  }

  /** Trimmed comma-free segments, the empty ones dropped, are clean tags. */
  lemma CleanSegments(segments: seq<string>)
    requires forall i | 0 <= i < |segments| :: ',' !in segments[i]
    ensures forall t | t in NonEmpty(TrimAll(segments)) :: CleanTag(t)
  {
    forall t | t in NonEmpty(TrimAll(segments)) ensures CleanTag(t) {
      var i :| 0 <= i < |segments| && t == Trim(segments[i]);
      TrimKeeps(segments[i]);
    }
  }

  /** `tagsToString`: the tags joined with ", ": no tag gives "", one tag
      itself, and comma-free tags one comma fewer than there are tags. */
  function TagsToString(tags: seq<string>): (r: string)
    ensures tags == [] ==> r == ""
    ensures |tags| == 1 ==> r == tags[0]
    ensures tags != [] && (forall i | 0 <= i < |tags| :: ',' !in tags[i]) ==> Count(r, ',') + 1 == |tags|
  {
    JoinCommas(tags);
    JoinWith(tags, ", ")
  }

  lemma {:induction false} JoinCommas(tags: seq<string>)
    ensures tags != [] && (forall i | 0 <= i < |tags| :: ',' !in tags[i]) ==>
      Count(JoinWith(tags, ", "), ',') + 1 == |tags|
    decreases |tags|
  {
    if tags != [] && (forall i | 0 <= i < |tags| :: ',' !in tags[i]) {
      NoCommaCount(tags[0]);
    }
    if |tags| > 1 {
      JoinCommas(tags[1..]);
      CountAppend(tags[0] + ", ", JoinWith(tags[1..], ", "), ',');
      CountAppend(tags[0], ", ", ',');
    }
  }

  lemma {:induction false} NoCommaCount(s: string)
    requires ',' !in s
    ensures Count(s, ',') == 0
  {
    if s != [] {
      assert ',' !in s[1..];
      NoCommaCount(s[1..]);
    }
  }

  /** A non-empty text becomes its trimmed comma-separated segments, the empty
      ones dropped. */
  lemma StringToTagsSegments(s: string)
    requires s != ""
    ensures StringToTags(Some(s)) == NonEmpty(TrimAll(Split(s, ',')))
  {
  }

  /** The segments of `lead` followed by joined tags: the first tag carries
      the lead, each later one the space after its comma. */
  lemma {:induction false} SplitJoined(lead: string, tags: seq<string>)
    requires |tags| >= 1 && ',' !in lead
    requires forall i | 0 <= i < |tags| :: ',' !in tags[i]
    ensures Split(lead + TagsToString(tags), ',') ==
      [lead + tags[0]] + seq(|tags| - 1, i requires 0 <= i < |tags| - 1 => " " + tags[i + 1])
    decreases |tags|
  {
    var tail := seq(|tags| - 1, i requires 0 <= i < |tags| - 1 => " " + tags[i + 1]);
    if |tags| == 1 {
      assert ',' !in lead + tags[0];
      SplitNoSeparator(lead + tags[0], ',');
    } else {
      var rest := tags[1..];
      assert lead + TagsToString(tags) == (lead + tags[0]) + [','] + (" " + TagsToString(rest));
      SplitAt(lead + tags[0], " " + TagsToString(rest), ',');
      assert ',' !in lead + tags[0];
      SplitNoSeparator(lead + tags[0], ',');
      SplitJoined(" ", rest);
      assert [" " + rest[0]] + seq(|rest| - 1, i requires 0 <= i < |rest| - 1 => " " + rest[i + 1]) == tail;
    }
  }

  /** A space before a non-empty trimmed tag is trimmed away. */
  lemma TrimSpaced(t: string)
    requires t != "" && Trimmed(t)
    ensures Trim(" " + t) == t
  {
    assert (" " + t)[1..] == t;
    assert TrimStart(" " + t) == t;
  }

  lemma {:induction false} NonEmptyAll(parts: seq<string>)
    requires forall i | 0 <= i < |parts| :: parts[i] != ""
    ensures NonEmpty(parts) == parts
  {
    if parts != [] { NonEmptyAll(parts[1..]); }
  }

  /** Trimming the segments of joined clean tags gives the tags back. */
  lemma TrimSegments(tags: seq<string>)
    requires tags != []
    requires forall i | 0 <= i < |tags| :: CleanTag(tags[i])
    ensures TrimAll(Split(TagsToString(tags), ',')) == tags
  {
    var s := TagsToString(tags);
    SplitJoined("", tags);
    assert "" + s == s && "" + tags[0] == tags[0];
    TrimSpacedTags(tags);
  }

  /** The first tag, then each later one behind its space: trimming gives the
      tags. */
  lemma TrimSpacedTags(tags: seq<string>)
    requires tags != []
    requires forall i | 0 <= i < |tags| :: CleanTag(tags[i])
    ensures TrimAll([tags[0]] + seq(|tags| - 1, i requires 0 <= i < |tags| - 1 => " " + tags[i + 1])) == tags
  {
    var segments := [tags[0]] + seq(|tags| - 1, i requires 0 <= i < |tags| - 1 => " " + tags[i + 1]);
    forall i | 0 <= i < |tags| ensures segments[i] == tags[i] || segments[i] == " " + tags[i] {
      if i > 0 {
        assert segments[i] == " " + tags[i];
      }
    }
    TrimEach(segments, tags);
  }

  /** Segments that are their tags, or their tags behind a space, trim to
      the tags. */
  lemma TrimEach(segments: seq<string>, tags: seq<string>)
    requires |segments| == |tags|
    requires forall i | 0 <= i < |tags| :: CleanTag(tags[i])
    requires forall i | 0 <= i < |tags| :: segments[i] == tags[i] || segments[i] == " " + tags[i]
    ensures TrimAll(segments) == tags
  {
    forall i | 0 <= i < |tags| ensures TrimAll(segments)[i] == tags[i] {
      TrimSegment(segments[i], tags[i]);
    }
  }

  lemma TrimSegment(segment: string, t: string)
    requires CleanTag(t) && (segment == t || segment == " " + t)
    ensures Trim(segment) == t
  {
    if segment == t {
      TrimTrimmed(t);
    } else {
      TrimSpaced(t);
    }
  }

  /** Round trip: clean tags survive `tagsToString` then `stringToTags`. */
  lemma TagsRoundTrip(tags: seq<string>)
    requires forall i | 0 <= i < |tags| :: CleanTag(tags[i])
    ensures StringToTags(Some(TagsToString(tags))) == tags
  {
    if tags != [] {
      var s := TagsToString(tags);
      TrimSegments(tags);
      NonEmptyAll(tags);
      assert s != "" by {
        JoinNonEmpty(tags);
      }
    }
  }

  /** Joining clean tags never gives the empty string. */
  lemma JoinNonEmpty(tags: seq<string>)
    requires tags != [] && tags[0] != ""
    ensures TagsToString(tags) != ""
  {
    if |tags| > 1 {
      assert |TagsToString(tags)| >= |tags[0]|;
    }
  }

  /** Parsing normalises: parsing the printed result of a parse gives it back. */
  lemma NormaliseIdempotent(str: Option<string>)
    ensures StringToTags(Some(TagsToString(StringToTags(str)))) == StringToTags(str)
  {
    TagsRoundTrip(StringToTags(str));
  }

  // ----- diary entry types -----

  /** One entry of `diaryTypes`: the stored value, its label (`caption`) and its colour. */
  datatype EntryType = EntryType(value: string, caption: string, color: string)

  const DiaryTypes: seq<EntryType> := [
    EntryType("buy", "買い", "#22c55e"),
    EntryType("sell", "売り", "#ef4444"),
    EntryType("note", "所感", "#3b82f6")
  ]

  /** The `DiaryType` union. */
  predicate IsDiaryType(s: string) {
    s == "buy" || s == "sell" || s == "note"
  }

  /** The master list holds each `DiaryType` value once and nothing else. */
  lemma DiaryTypesAreTheUnion()
    ensures forall s :: IsDiaryType(s) <==> exists i | 0 <= i < |DiaryTypes| :: DiaryTypes[i].value == s
    ensures forall i, j | 0 <= i < j < |DiaryTypes| :: DiaryTypes[i].value != DiaryTypes[j].value
  {
    forall s | IsDiaryType(s) ensures exists i | 0 <= i < |DiaryTypes| :: DiaryTypes[i].value == s {
      if s == "buy" { assert DiaryTypes[0].value == s; }
      else if s == "sell" { assert DiaryTypes[1].value == s; }
      else { assert DiaryTypes[2].value == s; }
    }
  }
}
