/** `findKebabs` (services/geminiService.ts): the API-key guard, the
    assembly of the reply's text and grounding chunks, the four labelled
    fields, the reconciliation of the name with the map grounding, and the
    gate that emits at most one place. The generative-model request itself
    is outside the model: its reply (or the error it threw) is an input. */
module GeminiService {
  import opened Wrappers
  import opened Types
  import opened JsText
  import opened LabelPattern
  import opened UriEncoding

  // ---- the reply of the generative-model service, as far as it is read ----

  datatype Part = Part(text: Option<string>)
  datatype Content = Content(parts: Option<seq<Part>>)
  datatype GroundingMetadata = GroundingMetadata(groundingChunks: Option<seq<GroundingChunk>>)
  datatype Candidate = Candidate(content: Option<Content>, groundingMetadata: Option<GroundingMetadata>)
  datatype GenerateContentResponse = GenerateContentResponse(candidates: Option<seq<Candidate>>)

  /** Why `findKebabs` throws: no API key, or the request failed. */
  datatype ServiceError = ConfigurationMissing | RequestFailed(message: string)

  const NameKey := "Name:"
  const AddressKey := "Address:"
  const DistanceKey := "Distance:"
  const ReasonKey := "Reason:"
  const UnknownName := "Unknown Kebab"
  const TargetId := "target-1"
  const NoDistance := "N/A"
  const DefaultDescription := "Highly recommended."
  const MapsSearchPrefix := "https://www.google.com/maps/search/?api=1&query="

  /** `response.candidates?.[0]`. */
  function FirstCandidate(resp: GenerateContentResponse): (c: Option<Candidate>)
    ensures c.Some? <==> resp.candidates.Some? && |resp.candidates.value| > 0
    ensures c.Some? ==> c.value == resp.candidates.value[0]
  {
    match resp.candidates
    case Some(cs) => if |cs| > 0 then Some(cs[0]) else None
    case None => None
  }

  /** `parts.map(p => p.text).join('')`: `join` writes a missing text as "". */
  function JoinTexts(parts: seq<Part>): (s: string)
    ensures |parts| == 1 ==> s == parts[0].text.GetOr("")
    ensures (forall k :: 0 <= k < |parts| ==> parts[k].text.GetOr("") == "") ==> s == ""
  {
    if parts == [] then "" else parts[0].text.GetOr("") + JoinTexts(parts[1..])
  }

  /** Joining is a homomorphism: the parts' texts appear in order, nothing between. */
  lemma {:induction false} JoinTextsAppend(a: seq<Part>, b: seq<Part>)
    ensures JoinTexts(a + b) == JoinTexts(a) + JoinTexts(b)
  {
    if a == [] {
      assert a + b == b;
    } else {
      assert (a + b)[0] == a[0];
      assert (a + b)[1..] == a[1..] + b;
      JoinTextsAppend(a[1..], b);
    }
  }

  /** The response text: the first candidate's part texts joined, or "" when
      there is no candidate, no content or no parts (the `|| ""`). */
  function ResponseText(resp: GenerateContentResponse): (text: string)
    ensures FirstCandidate(resp).None? ==> text == ""
    ensures FirstCandidate(resp).Some? &&
            (FirstCandidate(resp).value.content.None? || FirstCandidate(resp).value.content.value.parts.None?)
            ==> text == ""
    ensures forall ps :: (FirstCandidate(resp).Some? && FirstCandidate(resp).value.content == Some(Content(Some(ps))))
                         ==> text == JoinTexts(ps)
  {
    match FirstCandidate(resp)
    case Some(Candidate(Some(Content(Some(ps))), _)) => JoinTexts(ps)
    case _ => ""
  }

  /** The grounding chunks, absent when there is no candidate or no metadata. */
  function ResponseChunks(resp: GenerateContentResponse): (chunks: Option<seq<GroundingChunk>>)
    ensures FirstCandidate(resp).None? ==> chunks.None?
    ensures chunks.Some? ==>
              FirstCandidate(resp).Some? && FirstCandidate(resp).value.groundingMetadata == Some(GroundingMetadata(chunks))
    ensures FirstCandidate(resp).Some? && FirstCandidate(resp).value.groundingMetadata.Some? ==>
              chunks == FirstCandidate(resp).value.groundingMetadata.value.groundingChunks
  {
    match FirstCandidate(resp)
    case Some(Candidate(_, Some(GroundingMetadata(chunks)))) => chunks
    case _ => None
  }

  // ---- fields ----

  /** A field's value: the trimmed capture, or the fallback when the pattern
      does not match. */
  function TrimmedOr(capture: Option<string>, fallback: string): (v: string)
    ensures capture.None? ==> v == fallback
    ensures capture.Some? ==> |v| <= |capture.value| && (v != [] ==> !IsSpace(v[0]) && !IsSpace(v[|v| - 1]))
  {
    match capture
    case Some(c) => Trim(c)
    case None => fallback
  }

  /** Each field is the trimmed rest of the line after the first
      case-insensitive occurrence of its key and any white space (which may
      cross line ends), or the fallback when the key never matches. */
  lemma FieldValue(text: string, key: string, fallback: string) returns (m: Option<Match>)
    ensures m.None? ==> (forall p: nat :: !MatchesAt(text, key, p)) && TrimmedOr(Capture(text, key), fallback) == fallback
    ensures m.Some? ==>
      IsMatch(text, key, m.value.at, m.value.start, m.value.end) &&
      (forall p: nat :: p < m.value.at ==> !MatchesAt(text, key, p)) &&
      (forall q: nat, e: nat :: IsMatch(text, key, m.value.at, q, e) ==>
         q < m.value.start || (q == m.value.start && e <= m.value.end)) &&
      Capture(text, key) == Some(text[m.value.start..m.value.end]) &&
      TrimmedOr(Capture(text, key), fallback) == Trim(text[m.value.start..m.value.end])
  {
    m := FirstMatch(text, key, 0);
  }

  /** The name before reconciliation: the trimmed `Name:` field or the placeholder. */
  function InitialName(text: string): (name: string)
    ensures (forall p: nat :: !MatchesAt(text, NameKey, p)) ==> name == UnknownName
    ensures (exists p: nat :: MatchesAt(text, NameKey, p)) ==>
      name == [] || (!IsSpace(name[0]) && !IsSpace(name[|name| - 1]))
    ensures FirstMatch(text, NameKey, 0).Some? ==>
      var m := FirstMatch(text, NameKey, 0).value;
      name == Trim(text[m.start..m.end])
  {
    TrimmedOr(Capture(text, NameKey), UnknownName)
  }

  // ---- grounding reconciliation ----

  /** The name and URI after reconciliation. */
  datatype Grounding = Grounding(name: string, uri: string)

  /** The chunk has map data with a non-empty title that, lower-cased, occurs
      in the lower-cased name (the name contains the title, not the reverse). */
  predicate TitleMatches(name: string, c: GroundingChunk)
    ensures TitleMatches(name, c) ==> c.maps.Some? && 0 < |c.maps.value.title| <= |name|
  {
    c.maps.Some? && c.maps.value.title != "" && Includes(Lower(name), Lower(c.maps.value.title))
  }

  /** The containment runs one way only: a title longer than the name never
      matches, even when the name occurs in the title. */
  lemma LongerTitleNeverMatches(name: string, c: GroundingChunk)
    requires c.maps.Some? && |c.maps.value.title| > |name|
    ensures !TitleMatches(name, c)
  {
  }

  /** A non-empty title that occurs in the name, in any letter case, matches. */
  lemma ContainedTitleMatches(name: string, c: GroundingChunk, i: nat)
    requires c.maps.Some? && c.maps.value.title != ""
    requires OccursAt(name, c.maps.value.title, i)
    ensures TitleMatches(name, c)
  {
    LowerKeepsOccurrence(name, c.maps.value.title, i);
  }

  /** The index of the element `chunks.find` returns for the title test. */
  function FindTitleMatch(name: string, chunks: seq<GroundingChunk>): (r: Option<nat>)
    ensures r.Some? ==> r.value < |chunks| && TitleMatches(name, chunks[r.value])
    ensures r.Some? ==> forall j :: 0 <= j < r.value ==> !TitleMatches(name, chunks[j])
    ensures r.None? ==> forall j :: 0 <= j < |chunks| ==> !TitleMatches(name, chunks[j])
  {
    if chunks == [] then None
    else if TitleMatches(name, chunks[0]) then Some(0)
    else match FindTitleMatch(name, chunks[1..])
      case Some(i) => Some(i + 1)
      case None => None
  }

  /** The index of the element `chunks.find(c => c.maps)` returns. */
  function FindMapChunk(chunks: seq<GroundingChunk>): (r: Option<nat>)
    ensures r.Some? ==> r.value < |chunks| && chunks[r.value].maps.Some?
    ensures r.Some? ==> forall j :: 0 <= j < r.value ==> chunks[j].maps.None?
    ensures r.None? ==> forall j :: 0 <= j < |chunks| ==> chunks[j].maps.None?
  {
    if chunks == [] then None
    else if chunks[0].maps.Some? then Some(0)
    else match FindMapChunk(chunks[1..])
      case Some(i) => Some(i + 1)
      case None => None
  }

  /** The reconciliation step, branch for branch: a title match renames and
      supplies the URI; otherwise the first map chunk supplies the URI only. */
  function Reconcile(name: string, chunks: Option<seq<GroundingChunk>>): (g: Grounding)
    ensures g.name != name ==>
      chunks.Some? &&
      exists i :: 0 <= i < |chunks.value| && TitleMatches(name, chunks.value[i]) && g.name == chunks.value[i].maps.value.title
    ensures g.uri != "" ==>
      chunks.Some? &&
      exists i :: 0 <= i < |chunks.value| && chunks.value[i].maps.Some? && g.uri == chunks.value[i].maps.value.uri
  {
    if chunks.Some? && |chunks.value| > 0 then
      match FindTitleMatch(name, chunks.value)
      case Some(i) => Grounding(chunks.value[i].maps.value.title, chunks.value[i].maps.value.uri)
      case None =>
        match FindMapChunk(chunks.value)
        case Some(i) => Grounding(name, chunks.value[i].maps.value.uri)
        case None => Grounding(name, "")
    else Grounding(name, "")
  }

  /** The first chunk whose title the name contains supplies both the URI
      and the name. */
  lemma TitleMatchAdopted(name: string, chunks: seq<GroundingChunk>, i: nat)
    requires i < |chunks| && TitleMatches(name, chunks[i])
    requires forall j :: 0 <= j < i ==> !TitleMatches(name, chunks[j])
    ensures Reconcile(name, Some(chunks)) == Grounding(chunks[i].maps.value.title, chunks[i].maps.value.uri)
  {
    var r := FindTitleMatch(name, chunks);
    assert r.Some?;
  }

  /** With no title match, the first chunk that has map data supplies the URI
      and the name is kept. */
  lemma FirstMapFallback(name: string, chunks: seq<GroundingChunk>, i: nat)
    requires forall j :: 0 <= j < |chunks| ==> !TitleMatches(name, chunks[j])
    requires i < |chunks| && chunks[i].maps.Some?
    requires forall j :: 0 <= j < i ==> chunks[j].maps.None?
    ensures Reconcile(name, Some(chunks)) == Grounding(name, chunks[i].maps.value.uri)
  {
    var r := FindMapChunk(chunks);
    assert r.Some?;
  }

  /** Without any map data there is no grounding: name kept, URI empty. */
  lemma NoMapData(name: string, chunks: Option<seq<GroundingChunk>>)
    requires chunks.Some? ==> forall j :: 0 <= j < |chunks.value| ==> chunks.value[j].maps.None?
    ensures Reconcile(name, chunks) == Grounding(name, "")
  {
  }

  /** The chunks that carry map data, in order. */
  function MapChunks(chunks: seq<GroundingChunk>): (r: seq<GroundingChunk>)
    ensures |r| <= |chunks|
    ensures forall j :: 0 <= j < |r| ==> r[j].maps.Some?
    ensures forall c :: c in r <==> c in chunks && c.maps.Some?
  {
    if chunks == [] then []
    else if chunks[0].maps.Some? then [chunks[0]] + MapChunks(chunks[1..])
    else MapChunks(chunks[1..])
  }

  /** Filtering keeps the order: the map chunks of a concatenation are the
      map chunks of each part, in turn. */
  lemma {:induction false} MapChunksAppend(a: seq<GroundingChunk>, b: seq<GroundingChunk>)
    ensures MapChunks(a + b) == MapChunks(a) + MapChunks(b)
  {
    if a == [] {
      assert a + b == b;
    } else {
      assert (a + b)[0] == a[0];
      assert (a + b)[1..] == a[1..] + b;
      MapChunksAppend(a[1..], b);
    }
  }

  /** The map data of the chunk the title search selects. */
  function TitleMatchData(name: string, chunks: seq<GroundingChunk>): Option<MapsSource> {
    match FindTitleMatch(name, chunks)
    case Some(i) => Some(chunks[i].maps.value)
    case None => None
  }

  /** The map data of the first chunk that has any. */
  function FirstMapData(chunks: seq<GroundingChunk>): Option<MapsSource> {
    match FindMapChunk(chunks)
    case Some(i) => Some(chunks[i].maps.value)
    case None => None
  }

  /** The title search looks at the head first, then at the tail. */
  lemma TitleMatchDataStep(name: string, chunks: seq<GroundingChunk>)
    requires chunks != []
    ensures TitleMatchData(name, chunks) ==
      if TitleMatches(name, chunks[0]) then Some(chunks[0].maps.value) else TitleMatchData(name, chunks[1..])
  {
  }

  lemma {:induction false} TitleMatchIgnoresWebOnly(name: string, chunks: seq<GroundingChunk>)
    ensures TitleMatchData(name, chunks) == TitleMatchData(name, MapChunks(chunks))
  {
    if chunks != [] {
      var rest := MapChunks(chunks[1..]);
      TitleMatchIgnoresWebOnly(name, chunks[1..]);
      TitleMatchDataStep(name, chunks);
      if chunks[0].maps.Some? {
        var kept := [chunks[0]] + rest;
        assert MapChunks(chunks) == kept;
        assert kept[0] == chunks[0] && kept[1..] == rest;
        TitleMatchDataStep(name, kept);
      } else {
        assert MapChunks(chunks) == rest;
      }
    }
  }

  lemma {:induction false} FirstMapIgnoresWebOnly(chunks: seq<GroundingChunk>)
    ensures FirstMapData(chunks) == FirstMapData(MapChunks(chunks))
  {
    if chunks != [] {
      FirstMapIgnoresWebOnly(chunks[1..]);
      if chunks[0].maps.Some? {
        assert ([chunks[0]] + MapChunks(chunks[1..]))[1..] == MapChunks(chunks[1..]);
      }
    }
  }

  /** Chunks without map data (web-only chunks) never affect reconciliation. */
  lemma WebOnlyChunksIgnored(name: string, chunks: seq<GroundingChunk>)
    ensures Reconcile(name, Some(chunks)) == Reconcile(name, Some(MapChunks(chunks)))
  {
    TitleMatchIgnoresWebOnly(name, chunks);
    FirstMapIgnoresWebOnly(chunks);
  }

  // ---- place construction and gate ----

  /** The map-search link built from a name and the untrimmed address capture. */
  function SearchLink(name: string, address: string): (link: string)
    ensures |link| > |MapsSearchPrefix| && link[..|MapsSearchPrefix|] == MapsSearchPrefix
    ensures DecodeURIComponent(link[|MapsSearchPrefix|..]) == Some(name + " " + address)
  {
    var query := EncodeURIComponent(name + " " + address);
    DecodeEncode(name + " " + address);
    assert (MapsSearchPrefix + query)[|MapsSearchPrefix|..] == query;
    MapsSearchPrefix + query
  }

  /** The extraction after the reply: zero or one place. */
  function ExtractPlaces(text: string, chunks: Option<seq<GroundingChunk>>): (places: seq<KebabPlace>)
    ensures |places| <= 1
    ensures places != [] <==> Reconcile(InitialName(text), chunks).name != UnknownName
    ensures places != [] ==>
      places[0].id == TargetId && places[0].name == Reconcile(InitialName(text), chunks).name &&
      places[0].uri.Some? && places[0].uri.value != "" && places[0].rating.None?
  {
    var addressMatch := Capture(text, AddressKey);
    var g := Reconcile(InitialName(text), chunks);
    if g.name == UnknownName then []
    else
      [KebabPlace(
        id := TargetId,
        name := g.name,
        description := TrimmedOr(Capture(text, ReasonKey), DefaultDescription),
        uri := Some(if g.uri != "" then g.uri else SearchLink(g.name, addressMatch.GetOr(""))),
        rating := None,
        address := Some(TrimmedOr(addressMatch, "")),
        distance := Some(TrimmedOr(Capture(text, DistanceKey), NoDistance)))]
  }

  /** An emitted place carries each field's trimmed capture or its fallback:
      address "", distance "N/A", description "Highly recommended.". */
  lemma PlaceFields(text: string, chunks: Option<seq<GroundingChunk>>)
    ensures var places := ExtractPlaces(text, chunks);
      places != [] ==>
      var p := places[0];
      p.address == Some(TrimmedOr(Capture(text, AddressKey), "")) &&
      p.distance == Some(TrimmedOr(Capture(text, DistanceKey), NoDistance)) &&
      p.description == TrimmedOr(Capture(text, ReasonKey), DefaultDescription)
  {
  }

  /** Without a `Name:` match, and without a map chunk whose title occurs in
      "unknown kebab", nothing is emitted. */
  lemma NoNameNoPlace(text: string, chunks: Option<seq<GroundingChunk>>)
    requires forall p: nat :: !MatchesAt(text, NameKey, p)
    requires chunks.Some? ==> forall j :: 0 <= j < |chunks.value| ==> !TitleMatches(UnknownName, chunks.value[j])
    ensures ExtractPlaces(text, chunks) == []
  {
    assert InitialName(text) == UnknownName;
  }

  /** Reconciliation runs on the placeholder too: without a `Name:` match,
      the first map chunk whose title occurs in "unknown kebab" renames the
      place, and the place is emitted unless that title is the placeholder. */
  lemma PlaceholderRenamed(text: string, chunks: seq<GroundingChunk>, i: nat)
    requires i < |chunks| && TitleMatches(UnknownName, chunks[i])
    requires forall j :: 0 <= j < i ==> !TitleMatches(UnknownName, chunks[j])
    requires chunks[i].maps.value.title != UnknownName
    ensures (forall p: nat :: !MatchesAt(text, NameKey, p)) ==>
      var places := ExtractPlaces(text, Some(chunks));
      |places| == 1 && places[0].name == chunks[i].maps.value.title
  {
    if forall p: nat :: !MatchesAt(text, NameKey, p) {
      assert InitialName(text) == UnknownName;
      TitleMatchAdopted(UnknownName, chunks, i);
    }
  }

  /** A non-empty grounded URI is used as it is; otherwise the link is the map
      search for the final name and the raw (untrimmed) address capture, and
      its query decodes back to exactly that text. */
  lemma PlaceUri(text: string, chunks: Option<seq<GroundingChunk>>)
    ensures var g := Reconcile(InitialName(text), chunks);
      var places := ExtractPlaces(text, chunks);
      places != [] ==>
      var uri := places[0].uri.value;
      (g.uri != "" ==> uri == g.uri) &&
      (g.uri == "" ==>
        uri == MapsSearchPrefix + EncodeURIComponent(g.name + " " + Capture(text, AddressKey).GetOr("")) &&
        DecodeURIComponent(uri[|MapsSearchPrefix|..]) == Some(g.name + " " + Capture(text, AddressKey).GetOr("")))
  {
  }

  /** Web-only chunks never change the extracted place. */
  lemma ExtractIgnoresWebOnly(text: string, chunks: seq<GroundingChunk>)
    ensures ExtractPlaces(text, Some(chunks)) == ExtractPlaces(text, Some(MapChunks(chunks)))
  {
    WebOnlyChunksIgnored(InitialName(text), chunks);
  }

  // ---- the service call ----

  /** `!apiKey` is false exactly for a present, non-empty key. */
  predicate HasApiKey(apiKey: Option<string>)
    ensures apiKey.None? ==> !HasApiKey(apiKey)
    ensures apiKey == Some("") ==> !HasApiKey(apiKey)
    ensures apiKey.Some? && |apiKey.value| > 0 ==> HasApiKey(apiKey)
  {
    apiKey.Some? && apiKey.value != ""
  }

  /** `findKebabs(coords)`. `reply` is what the model request returned for the
      prompt built from the coordinates, or the error it threw. A missing key
      throws before the request is made, so the reply is never looked at. */
  function FindKebabs(apiKey: Option<string>, reply: Result<GenerateContentResponse, string>)
    : (r: Result<seq<KebabPlace>, ServiceError>)
    ensures !HasApiKey(apiKey) ==> r == Failure(ConfigurationMissing)
    ensures HasApiKey(apiKey) && reply.Failure? ==> r == Failure(RequestFailed(reply.error))
    ensures r.Success? ==> |r.value| <= 1 && forall k :: 0 <= k < |r.value| ==> r.value[k].id == TargetId
    ensures HasApiKey(apiKey) && reply.Success? ==>
      r == Success(ExtractPlaces(ResponseText(reply.value), ResponseChunks(reply.value)))
  {
    if !HasApiKey(apiKey) then Failure(ConfigurationMissing)
    else match reply
      case Failure(e) => Failure(RequestFailed(e))
      case Success(resp) => Success(ExtractPlaces(ResponseText(resp), ResponseChunks(resp)))
  }
}
