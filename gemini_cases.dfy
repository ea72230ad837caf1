/** Concrete replies that pin down the extractor's edge cases. */
module GeminiCases {
  import opened Wrappers
  import opened Types
  import opened JsText
  import opened LabelPattern
  import opened GeminiService

  function MapChunk(title: string, uri: string): GroundingChunk {
    GroundingChunk(None, Some(MapsSource(uri, title, None)))
  }

  /** The name must contain the title: "Ali's Kebab House" does not match the
      name "Ali's Kebab", so the name stays and only the URI is taken. */
  lemma TitleLongerThanNameDoesNotRename()
    ensures Reconcile("Ali's Kebab", Some([MapChunk("Ali's Kebab House", "u1")])) == Grounding("Ali's Kebab", "u1")
  {
    var chunks := [MapChunk("Ali's Kebab House", "u1")];
    LongerTitleNeverMatches("Ali's Kebab", chunks[0]);
    FirstMapFallback("Ali's Kebab", chunks, 0);
  }

  /** The reverse direction does rename: the title "Ali's Kebab" occurs in
      the name "Ali's Kebab House". */
  lemma TitleInsideNameRenames()
    ensures Reconcile("Ali's Kebab House", Some([MapChunk("Ali's Kebab", "u1")])) == Grounding("Ali's Kebab", "u1")
  {
    var chunks := [MapChunk("Ali's Kebab", "u1")];
    assert OccursAt("Ali's Kebab House", "Ali's Kebab", 0);
    ContainedTitleMatches("Ali's Kebab House", chunks[0], 0);
    TitleMatchAdopted("Ali's Kebab House", chunks, 0);
  }

  /** A reply without any `Name:` line still yields a place when a map chunk
      is titled "Kebab": the placeholder "Unknown Kebab" contains it. */
  lemma PlaceholderMeetsKebabTitle()
    ensures |ExtractPlaces("", Some([MapChunk("Kebab", "u1")]))| == 1
    ensures ExtractPlaces("", Some([MapChunk("Kebab", "u1")]))[0].name == "Kebab"
  {
    var chunks := [MapChunk("Kebab", "u1")];
    assert OccursAt(UnknownName, "Kebab", 8);
    ContainedTitleMatches(UnknownName, chunks[0], 8);
    PlaceholderRenamed("", chunks, 0);
  }

  /** `\s*` crosses line ends and the key's letter case does not matter:
      the name may sit on the line after a lower-case key. */
  lemma KeyOnItsOwnLine()
    ensures Capture("name:\n\tKing", NameKey) == Some("King")
  {
    var text := "name:\n\tKing";
    forall k | 0 <= k < |NameKey| ensures SameIgnoringCase(text[k], NameKey[k]) {
      if k == 0 {
        assert text[0] == 'n' && NameKey[0] == 'N';
      } else if k == 1 {
        assert text[1] == 'a' == NameKey[1];
      } else if k == 2 {
        assert text[2] == 'm' == NameKey[2];
      } else if k == 3 {
        assert text[3] == 'e' == NameKey[3];
      } else {
        assert text[4] == ':' == NameKey[4];
      }
    }
    assert LabelAt(text, NameKey, 0);
    assert SkipSpaces(text, 5) == 7;
    assert LineEnd(text, 7) == 11;
    assert MatchAt(text, NameKey, 0) == Some(Match(0, 7, 11));
    assert text[7..11] == "King";
  }

  /** The capture keeps the line's trailing spaces; only the address field is
      trimmed, while the search link is built from the capture as it is. */
  lemma AddressCaptureKeepsTrailingSpaces()
    ensures Capture("Address: 12 Elm St  ", AddressKey) == Some("12 Elm St  ")
    ensures TrimmedOr(Capture("Address: 12 Elm St  ", AddressKey), "") == "12 Elm St"
  {
    var text := "Address: 12 Elm St  ";
    assert text[..|AddressKey|] == AddressKey;
    assert LabelAt(text, AddressKey, 0);
    assert SkipSpaces(text, 8) == 9;
    assert LineEnd(text, 9) == 20;
    assert MatchAt(text, AddressKey, 0) == Some(Match(0, 9, 20));
    assert text[9..20] == "12 Elm St  ";
    assert "12 Elm St  " == [] + "12 Elm St" + "  ";
    TrimUnique([], "12 Elm St", "  ");
  }
}
