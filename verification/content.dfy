/** Content negotiation (`src/content/mod.rs`): codec registries chosen by
    `Accept` and `Content-Type`, and the handlers that decode requests and
    encode responses. A codec is a partial function given as a parameter. */
module Content {
  import opened Base
  import opened Headers
  import opened Requests
  import opened Responses
  import opened Filters

  /** `SerializationError`. */
  datatype SerializationError = SerializationError(reason: string)

  /** `content::Error`. */
  datatype ContentError =
    | Serialization(cause: SerializationError)
    | UnsupportedMediaType(mediaType: Option<string>)
    | HeaderParse(parseError: HeaderParseError)

  /** `match_media_type`: the item of the first entry, in registration
      order, the matcher accepts. */
  function MatchMediaType<T>(accepts: (string, string) -> bool, choices: seq<(string, string, T)>): (r: Option<T>)
    ensures r.Some? <==> exists i :: 0 <= i < |choices| && accepts(choices[i].0, choices[i].1)
    decreases |choices|
  {
    if choices == [] then None
    else if accepts(choices[0].0, choices[0].1) then Some(choices[0].2)
    else
      var r := MatchMediaType(accepts, choices[1..]);
      assert forall i :: 1 <= i < |choices| ==> choices[i] == choices[1..][i - 1];
      r
  }

  /** The first accepted entry wins, whatever comes after it. */
  lemma {:induction false} MatchMediaTypeFirst<T>(accepts: (string, string) -> bool, choices: seq<(string, string, T)>, i: nat)
    requires i < |choices| && accepts(choices[i].0, choices[i].1)
    requires forall j :: 0 <= j < i ==> !accepts(choices[j].0, choices[j].1)
    ensures MatchMediaType(accepts, choices) == Some(choices[i].2)
    decreases i
  {
    if i > 0 {
      MatchMediaTypeFirst(accepts, choices[1..], i - 1);
    }
  }

  /** An ordered list of (type, subtype, codec) entries and the default
      codec. */
  datatype Registry<T> = Registry(entries: seq<(string, string, T)>, default: Option<T>)

  function EmptyRegistry<T>(): Registry<T> {
    Registry([], None)
  }

  /** `with_media_type`: appends the entry; with `default` set it also
      replaces the default. */
  function WithMediaType<T>(reg: Registry<T>, mimeType: string, mimeSubtype: string, item: T, isDefault: bool): (r: Registry<T>)
    ensures r.entries == reg.entries + [(mimeType, mimeSubtype, item)]
    ensures r.default == if isDefault then Some(item) else reg.default
  {
    Registry(reg.entries + [(mimeType, mimeSubtype, item)], if isDefault then Some(item) else reg.default)
  }

  /** A sequence of `with_media_type` calls. */
  function RegisterAll<T>(reg: Registry<T>, regs: seq<(string, string, T, bool)>): Registry<T>
    decreases |regs|
  {
    if regs == [] then reg
    else RegisterAll(WithMediaType(reg, regs[0].0, regs[0].1, regs[0].2, regs[0].3), regs[1..])
  }

  /** The item of the last registration marked default. */
  function LastDefault<T>(regs: seq<(string, string, T, bool)>): Option<T>
    decreases |regs|
  {
    if regs == [] then None
    else if regs[|regs| - 1].3 then Some(regs[|regs| - 1].2)
    else LastDefault(regs[..|regs| - 1])
  }

  function EntriesOf<T>(regs: seq<(string, string, T, bool)>): (r: seq<(string, string, T)>)
    ensures |r| == |regs|
    ensures forall i :: 0 <= i < |regs| ==> r[i] == (regs[i].0, regs[i].1, regs[i].2)
  {
    seq(|regs|, i requires 0 <= i < |regs| => (regs[i].0, regs[i].1, regs[i].2))
  }

  /** Registration keeps every entry in order, and the last default wins. */
  lemma {:induction false} RegisterAllMeaning<T>(reg: Registry<T>, regs: seq<(string, string, T, bool)>)
    ensures RegisterAll(reg, regs).entries == reg.entries + EntriesOf(regs)
    ensures RegisterAll(reg, regs).default == if LastDefault(regs).Some? then LastDefault(regs) else reg.default
    decreases |regs|
  {
    if regs != [] {
      var reg1 := WithMediaType(reg, regs[0].0, regs[0].1, regs[0].2, regs[0].3);
      RegisterAllMeaning(reg1, regs[1..]);
      assert EntriesOf(regs) == [(regs[0].0, regs[0].1, regs[0].2)] + EntriesOf(regs[1..]);
      LastDefaultCons(regs);
    }
  }

  /** Read from the front: the last default is the later registrations'
      one if they have one, else the first registration's. Serves
      `RegisterAllMeaning`, whose registrations run first to last. */
  lemma {:induction false} LastDefaultCons<T>(regs: seq<(string, string, T, bool)>)
    requires regs != []
    ensures LastDefault(regs) ==
      if LastDefault(regs[1..]).Some? then LastDefault(regs[1..])
      else if regs[0].3 then Some(regs[0].2) else None
    decreases |regs|
  {
    if |regs| > 1 {
      var init := regs[..|regs| - 1];
      assert init[1..] == regs[1..][..|regs[1..]| - 1];
      assert regs[1..][|regs[1..]| - 1] == regs[|regs| - 1];
      LastDefaultCons(init);
    }
  }

  // ---- Serializers ----

  /** `SingleMediaTypeSerializer<M, O>`: the media type and the encoder. */
  datatype Serializer<!O> = Serializer(mimeType: string, mimeSubtype: string, encode: O -> Result<seq<byte>, SerializationError>)

  /** `SingleMediaTypeSerializer::serialize`: a payload is encoded and a
      `Content-Type` header appended; without one nothing is encoded. */
  function SingleSerialize<O>(s: Serializer<O>, resp: Response<O>): (r: Result<Response<seq<byte>>, SerializationError>)
    ensures resp.payload.None? ==> r == Ok(Responses.IntoType(resp))
    ensures resp.payload.Some? ==> (r.Err? <==> s.encode(resp.payload.value).Err?)
    ensures resp.payload.Some? && r.Err? ==> r.error == s.encode(resp.payload.value).error
    ensures r.Ok? ==> r.value.statusCode == resp.statusCode && r.value.status == resp.status
    ensures r.Ok? && resp.payload.Some? ==>
      && r.value.payload == Some(s.encode(resp.payload.value).value)
      && r.value.headers == resp.headers + [("Content-Type", s.mimeType + "/" + s.mimeSubtype)]
  {
    match resp.payload
    case None => Ok(Responses.IntoType(resp))
    case Some(body) =>
      match s.encode(body)
      case Err(e) => Err(e)
      case Ok(bytes) => Ok(Responses.WithHeader(WithPayload(Responses.IntoType(resp), bytes), "Content-Type", s.mimeType + "/" + s.mimeSubtype))
  }

  /** A serializer registry entry for media type `t/st`. */
  function AddSerializer<O>(reg: Registry<Serializer<O>>, t: string, st: string, encode: O -> Result<seq<byte>, SerializationError>, isDefault: bool): Registry<Serializer<O>> {
    WithMediaType(reg, t, st, Serializer(t, st, encode), isDefault)
  }

  /** The first preference, in list order, that some entry satisfies,
      picks the first such entry. */
  function FirstPreferred<T>(prefs: Accept, entries: seq<(string, string, T)>): (r: Option<T>)
    ensures r.Some? <==> exists i, j :: 0 <= i < |prefs| && 0 <= j < |entries| && PreferenceMatches(prefs[i], entries[j].0, entries[j].1)
    decreases |prefs|
  {
    if prefs == [] then None
    else
      var m := MatchMediaType((t, st) => PreferenceMatches(prefs[0], t, st), entries);
      if m.Some? then m
      else
        var r := FirstPreferred(prefs[1..], entries);
        assert forall i :: 1 <= i < |prefs| ==> prefs[i] == prefs[1..][i - 1];
        r
  }

  /** `get_serializer`: the default without an `Accept` header, otherwise
      only what the preferences select. */
  function GetSerializer<T>(reg: Registry<T>, accept: Option<Accept>): (r: Option<T>)
    ensures accept.None? ==> r == reg.default
    ensures accept.Some? ==> r == FirstPreferred(accept.value, reg.entries)
  {
    match accept
    case None => reg.default
    case Some(prefs) => FirstPreferred(prefs, reg.entries)
  }

  /** With an `Accept` header the default plays no part; an empty or
      unsatisfiable header selects nothing. */
  lemma GetSerializerIgnoresDefault<T>(reg: Registry<T>, prefs: Accept, d: Option<T>)
    ensures GetSerializer(reg, Some(prefs)) == GetSerializer(reg.(default := d), Some(prefs))
    ensures prefs == [] ==> GetSerializer(reg, Some(prefs)) == None
  {
  }

  /** The first preference some entry satisfies picks the first entry it
      matches, whatever the later preferences. */
  lemma {:induction false} FirstPreferredPicks<T>(prefs: Accept, entries: seq<(string, string, T)>, i: nat, j: nat)
    requires i < |prefs| && j < |entries|
    requires PreferenceMatches(prefs[i], entries[j].0, entries[j].1)
    requires forall k :: 0 <= k < j ==> !PreferenceMatches(prefs[i], entries[k].0, entries[k].1)
    requires forall h, k :: 0 <= h < i && 0 <= k < |entries| ==> !PreferenceMatches(prefs[h], entries[k].0, entries[k].1)
    ensures FirstPreferred(prefs, entries) == Some(entries[j].2)
    decreases i
  {
    if i == 0 {
      MatchMediaTypeFirst((t, st) => PreferenceMatches(prefs[0], t, st), entries, j);
    } else {
      var m := MatchMediaType((t, st) => PreferenceMatches(prefs[0], t, st), entries);
      assert m.None? by {
        forall k | 0 <= k < |entries|
          ensures !PreferenceMatches(prefs[0], entries[k].0, entries[k].1)
        {
        }
      }
      FirstPreferredPicks(prefs[1..], entries, i - 1, j);
    }
  }

  /** An `Accept` whose first preference has type `*` selects the first
      registered entry, whatever else it lists. */
  lemma WildcardPicksFirstEntry<T>(reg: Registry<T>, prefs: Accept)
    requires prefs != [] && prefs[0].mimeType == "*" && reg.entries != []
    ensures GetSerializer(reg, Some(prefs)) == Some(reg.entries[0].2)
  {
    FirstPreferredPicks(prefs, reg.entries, 0, 0);
  }

  /** An `Accept` whose first preference has type `t` and subtype `*`
      selects the first registered entry of type `t`, whatever its
      subtype. */
  lemma SubtypeWildcardPicksFirstOfType<T>(reg: Registry<T>, prefs: Accept, j: nat)
    requires prefs != [] && prefs[0].mimeType != "*" && prefs[0].mimeSubtype == "*"
    requires j < |reg.entries| && reg.entries[j].0 == prefs[0].mimeType
    requires forall k :: 0 <= k < j ==> reg.entries[k].0 != prefs[0].mimeType
    ensures GetSerializer(reg, Some(prefs)) == Some(reg.entries[j].2)
  {
    FirstPreferredPicks(prefs, reg.entries, 0, j);
  }

  /** With the preferences sorted in order `o`, the first one some entry
      satisfies decides, and every preference that `o` sorts strictly
      before it by quality is unsatisfiable. */
  lemma {:induction false} ChosenByOrder<T>(reg: Registry<T>, prefs: Accept, o: QualityOrder, i: nat, j: nat)
    requires SortedByQuality(prefs, o)
    requires i < |prefs| && j < |reg.entries|
    requires PreferenceMatches(prefs[i], reg.entries[j].0, reg.entries[j].1)
    requires forall k :: 0 <= k < j ==> !PreferenceMatches(prefs[i], reg.entries[k].0, reg.entries[k].1)
    requires forall h, k :: 0 <= h < i && 0 <= k < |reg.entries| ==> !PreferenceMatches(prefs[h], reg.entries[k].0, reg.entries[k].1)
    ensures GetSerializer(reg, Some(prefs)) == Some(reg.entries[j].2)
    ensures forall h, k ::
      0 <= h < |prefs| && 0 <= k < |reg.entries| && !Precedes(prefs[i].quality, prefs[h].quality, o) ==>
        !PreferenceMatches(prefs[h], reg.entries[k].0, reg.entries[k].1)
  {
    FirstPreferredPicks(prefs, reg.entries, i, j);
  }

  /** Finding, as written: `get_serializer` walks the parsed `Accept` from
      the lowest quality up, so the answer comes from the satisfiable
      preference of LOWEST quality; every preference of lower quality is
      unsatisfiable. */
  lemma LeastPreferredServed<T>(reg: Registry<T>, s: string, parseQ: QualityParser, i: nat, j: nat)
    requires i < |ParseAccept(s, parseQ).value| && j < |reg.entries|
    requires PreferenceMatches(ParseAccept(s, parseQ).value[i], reg.entries[j].0, reg.entries[j].1)
    requires forall k :: 0 <= k < j ==> !PreferenceMatches(ParseAccept(s, parseQ).value[i], reg.entries[k].0, reg.entries[k].1)
    requires forall h, k :: 0 <= h < i && 0 <= k < |reg.entries| ==> !PreferenceMatches(ParseAccept(s, parseQ).value[h], reg.entries[k].0, reg.entries[k].1)
    ensures GetSerializer(reg, Some(ParseAccept(s, parseQ).value)) == Some(reg.entries[j].2)
    ensures var prefs := ParseAccept(s, parseQ).value;
      forall h, k :: 0 <= h < |prefs| && 0 <= k < |reg.entries| && prefs[h].quality < prefs[i].quality
        ==> !PreferenceMatches(prefs[h], reg.entries[k].0, reg.entries[k].1)
  {
    ChosenByOrder(reg, ParseAccept(s, parseQ).value, LowestFirst, i, j);
  }

  /** Finding, corrected: with the preferences tried from the highest
      quality down, the answer comes from the satisfiable preference of
      HIGHEST quality; every preference of higher quality is
      unsatisfiable. */
  lemma MostPreferredServed<T>(reg: Registry<T>, s: string, parseQ: QualityParser, i: nat, j: nat)
    requires i < |ParseAcceptIntended(s, parseQ).value| && j < |reg.entries|
    requires PreferenceMatches(ParseAcceptIntended(s, parseQ).value[i], reg.entries[j].0, reg.entries[j].1)
    requires forall k :: 0 <= k < j ==> !PreferenceMatches(ParseAcceptIntended(s, parseQ).value[i], reg.entries[k].0, reg.entries[k].1)
    requires forall h, k :: 0 <= h < i && 0 <= k < |reg.entries| ==> !PreferenceMatches(ParseAcceptIntended(s, parseQ).value[h], reg.entries[k].0, reg.entries[k].1)
    ensures GetSerializer(reg, Some(ParseAcceptIntended(s, parseQ).value)) == Some(reg.entries[j].2)
    ensures var prefs := ParseAcceptIntended(s, parseQ).value;
      forall h, k :: 0 <= h < |prefs| && 0 <= k < |reg.entries| && prefs[h].quality > prefs[i].quality
        ==> !PreferenceMatches(prefs[h], reg.entries[k].0, reg.entries[k].1)
  {
    ChosenByOrder(reg, ParseAcceptIntended(s, parseQ).value, HighestFirst, i, j);
  }

  /** Two preferences in header order, the higher quality first. */
  lemma SortTwo(hi: MediaTypePreference, lo: MediaTypePreference)
    requires lo.quality < hi.quality
    ensures SortByQuality([hi, lo], LowestFirst) == [lo, hi]
    ensures SortByQuality([hi, lo], HighestFirst) == [hi, lo]
  {
    assert [hi, lo][1..] == [lo];
    assert [lo][1..] == [];
    assert SortByQuality([lo], LowestFirst) == [lo];
    assert SortByQuality([lo], HighestFirst) == [lo];
    assert InsertByQuality(hi, [lo], LowestFirst) == [lo] + InsertByQuality(hi, [], LowestFirst);
  }

  /** Two preferences of different quality, each satisfied by its own
      entry, the higher one by the first: the order decides which entry is
      chosen. */
  lemma TwoPreferencesOrder<T>(hi: MediaTypePreference, lo: MediaTypePreference, reg: Registry<T>)
    requires lo.quality < hi.quality && |reg.entries| == 2
    requires PreferenceMatches(hi, reg.entries[0].0, reg.entries[0].1)
    requires !PreferenceMatches(lo, reg.entries[0].0, reg.entries[0].1)
    requires PreferenceMatches(lo, reg.entries[1].0, reg.entries[1].1)
    ensures GetSerializer(reg, Some(SortByQuality([hi, lo], LowestFirst))) == Some(reg.entries[1].2)
    ensures GetSerializer(reg, Some(SortByQuality([hi, lo], HighestFirst))) == Some(reg.entries[0].2)
  {
    SortTwo(hi, lo);
    FirstPreferredPicks([lo, hi], reg.entries, 0, 1);
    FirstPreferredPicks([hi, lo], reg.entries, 0, 0);
  }

  /** Finding, concretely: `text/html` at quality 1 and `application/json`
      at quality 0.5, both registered. Sorted as written the JSON entry is
      chosen; sorted highest first the HTML entry is. */
  lemma LowQualityBeatsHigh<T>(html: T, json: T)
    ensures var hi := MediaTypePreference("text", "html", 1.0);
      var lo := MediaTypePreference("application", "json", 0.5);
      var reg := Registry([("text", "html", html), ("application", "json", json)], None);
      && GetSerializer(reg, Some(SortByQuality([hi, lo], LowestFirst))) == Some(json)
      && GetSerializer(reg, Some(SortByQuality([hi, lo], HighestFirst))) == Some(html)
  {
    var hi := MediaTypePreference("text", "html", 1.0);
    var lo := MediaTypePreference("application", "json", 0.5);
    assert |"application"| != |"text"|;
    TwoPreferencesOrder(hi, lo, Registry([("text", "html", html), ("application", "json", json)], None));
  }

  /** `MediaTypeSerializer::serialize`. */
  function Serialize<O>(reg: Registry<Serializer<O>>, accept: Option<Accept>, resp: Response<O>): (r: Result<Response<seq<byte>>, ContentError>)
    ensures GetSerializer(reg, accept).None? ==> r == Err(UnsupportedMediaType(None))
    ensures GetSerializer(reg, accept).Some? ==> r.Err? ==> r.error.Serialization?
  {
    match GetSerializer(reg, accept)
    case None => Err(UnsupportedMediaType(None))
    case Some(s) =>
      match SingleSerialize(s, resp)
      case Ok(x) => Ok(x)
      case Err(e) => Err(Serialization(e))
  }

  /** The status a failed encoding is answered with. */
  function EncodeFailureStatus(e: ContentError): u16 {
    match e
    case Serialization(_) => 500
    case UnsupportedMediaType(_) => 406
    case HeaderParse(_) => 400
  }

  /** The status a failed decoding is answered with. */
  function DecodeFailureStatus(e: ContentError): u16 {
    match e
    case Serialization(_) => 400
    case UnsupportedMediaType(_) => 415
    case HeaderParse(_) => 400
  }

  // ---- Deserializers ----

  /** `SingleMediaTypeDeserializer<M, I>`: the decoder. */
  datatype Deserializer<I> = Deserializer(decode: seq<byte> -> Result<I, SerializationError>)

  /** `SingleMediaTypeDeserializer::deserialize`: a payload is decoded;
      without one the decoder is not used. */
  function SingleDeserialize<I>(d: Deserializer<I>, req: Request<seq<byte>>): (r: Result<Request<I>, SerializationError>)
    ensures req.payload.None? ==> r == Ok(Requests.IntoType(req))
    ensures req.payload.Some? ==> (r.Err? <==> d.decode(req.payload.value).Err?)
    ensures req.payload.Some? && r.Err? ==> r.error == d.decode(req.payload.value).error
    ensures r.Ok? && req.payload.Some? ==> r.value == Requests.IntoType(req).(payload := Some(d.decode(req.payload.value).value))
  {
    match req.payload
    case None => Ok(Requests.IntoType(req))
    case Some(body) =>
      match d.decode(body)
      case Err(e) => Err(e)
      case Ok(v) => Ok(Requests.IntoType(req).(payload := Some(v)))
  }

  /** Without a payload the decoder is never called: any two decoders give
      the same result. */
  lemma NoPayloadNoDecode<I>(d1: Deserializer<I>, d2: Deserializer<I>, req: Request<seq<byte>>)
    requires req.payload.None?
    ensures SingleDeserialize(d1, req) == SingleDeserialize(d2, req)
    ensures SingleDeserialize(d1, req).Ok? && SingleDeserialize(d1, req).value.payload == None
  {
  }

  /** `get_deserializer`: the default without a `Content-Type` header,
      otherwise the first entry with exactly that type and subtype. */
  function GetDeserializer<T>(reg: Registry<T>, ct: Option<ContentType>): (r: Option<T>)
    ensures ct.None? ==> r == reg.default
    ensures ct.Some? ==> (r.Some? <==> exists i :: 0 <= i < |reg.entries| && reg.entries[i].0 == ct.value.mimeType && reg.entries[i].1 == ct.value.mimeSubtype)
  {
    match ct
    case None => reg.default
    case Some(c) => MatchMediaType((t, st) => ContentTypeMatches(c, t, st), reg.entries)
  }

  /** `MediaTypeDeserializer::deserialize`. */
  function Deserialize<I>(reg: Registry<Deserializer<I>>, req: Request<seq<byte>>): (r: Result<Request<I>, ContentError>)
    ensures ContentTypeOf(req).Err? ==> r == Err(HeaderParse(ContentTypeOf(req).error))
    ensures ContentTypeOf(req).Ok? && GetDeserializer(reg, ContentTypeOf(req).value).None? ==>
      var ct := ContentTypeOf(req).value;
      r == Err(UnsupportedMediaType(if ct.Some? then Some(ct.value.mimeType + "/" + ct.value.mimeSubtype) else None))
    ensures ContentTypeOf(req).Ok? && GetDeserializer(reg, ContentTypeOf(req).value).Some? ==>
      var d := GetDeserializer(reg, ContentTypeOf(req).value).value;
      (r.Ok? <==> SingleDeserialize(d, req).Ok?) && (r.Ok? ==> r.value == SingleDeserialize(d, req).value)
      && (r.Err? ==> r.error == Serialization(SingleDeserialize(d, req).error))
  {
    match ContentTypeOf(req)
    case Err(e) => Err(HeaderParse(e))
    case Ok(ct) =>
      match GetDeserializer(reg, ct)
      case None => Err(UnsupportedMediaType(if ct.Some? then Some(ct.value.mimeType + "/" + ct.value.mimeSubtype) else None))
      case Some(d) =>
        match SingleDeserialize(d, req)
        case Ok(x) => Ok(x)
        case Err(e) => Err(Serialization(e))
  }

  // ---- Handlers ----

  /** The `Accept` preferences of a request; reading them never fails. */
  function AcceptPrefs<T>(req: Request<T>, parseQ: QualityParser): Option<Accept> {
    AcceptOf(req, parseQ).value
  }

  /** `MediaTypeSerde::handle`. */
  function Serde<I, O, E, C>(ser: Registry<Serializer<O>>, de: Registry<Deserializer<I>>, parseQ: QualityParser, inner: Handler<I, O, E, C>): Handler<seq<byte>, seq<byte>, E, C> {
    (req: Request<seq<byte>>, ctx: C) =>
      var accept := AcceptPrefs(req, parseQ);
      if GetSerializer(ser, accept).None? then (Err(Responses.New(406)), ctx)
      else
        match Deserialize(de, req)
        case Err(e) => (Err(Responses.New(DecodeFailureStatus(e))), ctx)
        case Ok(r) =>
          var (res, c1) := inner(r, ctx);
          if res.Err? then (Err(res.error), c1)
          else
            match Serialize(ser, accept, res.value)
            case Ok(x) => (Ok(x), c1)
            case Err(e) => (Err(Responses.New(EncodeFailureStatus(e))), c1)
  }

  /** An `Accept` header nothing registered can satisfy is answered 406
      before anything is decoded or handled: the decoders and the inner
      handler make no difference and the context is untouched. */
  lemma SerdeNotAcceptable<I, O, E, C>(
    ser: Registry<Serializer<O>>, de1: Registry<Deserializer<I>>, de2: Registry<Deserializer<I>>, parseQ: QualityParser,
    inner1: Handler<I, O, E, C>, inner2: Handler<I, O, E, C>, req: Request<seq<byte>>, ctx: C)
    requires GetSerializer(ser, AcceptPrefs(req, parseQ)).None?
    ensures Serde(ser, de1, parseQ, inner1)(req, ctx) == Serde(ser, de2, parseQ, inner2)(req, ctx)
    ensures Serde(ser, de1, parseQ, inner1)(req, ctx) == (Err(Responses.New(406)), ctx)
  {
  }

  /** A request that cannot be decoded is answered 400 (a bad header or a
      decoder error) or 415 (no decoder for its type), and the inner
      handler never runs. */
  lemma SerdeDecodeFailure<I, O, E, C>(
    ser: Registry<Serializer<O>>, de: Registry<Deserializer<I>>, parseQ: QualityParser,
    inner1: Handler<I, O, E, C>, inner2: Handler<I, O, E, C>, req: Request<seq<byte>>, ctx: C)
    requires GetSerializer(ser, AcceptPrefs(req, parseQ)).Some?
    requires Deserialize(de, req).Err?
    ensures Serde(ser, de, parseQ, inner1)(req, ctx) == Serde(ser, de, parseQ, inner2)(req, ctx)
    ensures var (res, c1) := Serde(ser, de, parseQ, inner1)(req, ctx);
      && c1 == ctx && res.Err? && res.error.payload == None
      && (Deserialize(de, req).error.UnsupportedMediaType? ==> res.error.statusCode == 415)
      && (!Deserialize(de, req).error.UnsupportedMediaType? ==> res.error.statusCode == 400)
  {
    var e := Deserialize(de, req).error;
    assert Serde(ser, de, parseQ, inner1)(req, ctx) == (Err(Responses.New(DecodeFailureStatus(e))), ctx);
  }

  /** After the inner handler has run, the only statuses the wrapper adds
      are 500 for an encoding failure; an error from the inner handler is
      passed on unchanged, and never a 406. */
  lemma SerdeAfterHandler<I, O, E, C>(
    ser: Registry<Serializer<O>>, de: Registry<Deserializer<I>>, parseQ: QualityParser,
    inner: Handler<I, O, E, C>, req: Request<seq<byte>>, ctx: C)
    requires GetSerializer(ser, AcceptPrefs(req, parseQ)).Some?
    requires Deserialize(de, req).Ok?
    ensures var (ires, c1) := inner(Deserialize(de, req).value, ctx);
      var (res, c2) := Serde(ser, de, parseQ, inner)(req, ctx);
      && c2 == c1
      && (ires.Err? ==> res == Err(ires.error))
      && (ires.Ok? && res.Err? ==> res.error == Responses.New(500))
      && (ires.Ok? && res.Ok? ==> Serialize(ser, AcceptPrefs(req, parseQ), ires.value) == Ok(res.value))
  {
  }

  /** `MediaTypeSerializer::handle`. */
  function SerializerHandler<I, O, E, C>(ser: Registry<Serializer<O>>, parseQ: QualityParser, inner: Handler<I, O, E, C>): Handler<I, seq<byte>, E, C> {
    (req: Request<I>, ctx: C) =>
      var accept := AcceptPrefs(req, parseQ);
      if GetSerializer(ser, accept).None? then (Err(Responses.New(406)), ctx)
      else
        var (res, c1) := inner(req, ctx);
        if res.Err? then (Err(res.error), c1)
        else
          match Serialize(ser, accept, res.value)
          case Ok(x) => (Ok(x), c1)
          case Err(e) => (Err(Responses.New(EncodeFailureStatus(e))), c1)
  }

  /** The serializing handler answers 406 before the inner handler runs,
      passes an inner error on unchanged, and adds only 500 for an encoding
      failure. */
  lemma SerializerHandlerOutcomes<I, O, E, C>(ser: Registry<Serializer<O>>, parseQ: QualityParser, inner: Handler<I, O, E, C>, req: Request<I>, ctx: C)
    ensures GetSerializer(ser, AcceptPrefs(req, parseQ)).None? ==> SerializerHandler(ser, parseQ, inner)(req, ctx) == (Err(Responses.New(406)), ctx)
    ensures GetSerializer(ser, AcceptPrefs(req, parseQ)).Some? ==>
      var (ires, c1) := inner(req, ctx);
      var (res, c2) := SerializerHandler(ser, parseQ, inner)(req, ctx);
      && c2 == c1
      && (ires.Err? ==> res == Err(ires.error))
      && (ires.Ok? && res.Err? ==> res.error == Responses.New(500))
  {
  }

  /** `MediaTypeErrorSerializer::handle`: the same 406 check, then only
      error payloads are encoded. */
  function ErrorSerializer<I, O, E, C>(ser: Registry<Serializer<E>>, parseQ: QualityParser, inner: Handler<I, O, E, C>): Handler<I, O, seq<byte>, C> {
    (req: Request<I>, ctx: C) =>
      var accept := AcceptPrefs(req, parseQ);
      if GetSerializer(ser, accept).None? then (Err(Responses.New(406)), ctx)
      else
        var (res, c1) := inner(req, ctx);
        if res.Ok? then (Ok(res.value), c1)
        else
          match Serialize(ser, accept, res.error)
          case Ok(x) => (Err(x), c1)
          case Err(e) => (Err(Responses.New(EncodeFailureStatus(e))), c1)
  }

  /** The error serializer answers 406 to an unsatisfiable `Accept` even
      when the inner handler would have succeeded, and it never runs the
      inner handler then. */
  lemma ErrorSerializerNotAcceptable<I, O, E, C>(
    ser: Registry<Serializer<E>>, parseQ: QualityParser,
    inner1: Handler<I, O, E, C>, inner2: Handler<I, O, E, C>, req: Request<I>, ctx: C)
    requires GetSerializer(ser, AcceptPrefs(req, parseQ)).None?
    ensures ErrorSerializer(ser, parseQ, inner1)(req, ctx) == ErrorSerializer(ser, parseQ, inner2)(req, ctx)
    ensures ErrorSerializer(ser, parseQ, inner1)(req, ctx) == (Err(Responses.New(406)), ctx)
  {
  }

  /** Past the 406 check an Ok passes unchanged, and an error is encoded
      or, if encoding fails, becomes a 500. */
  lemma ErrorSerializerOutcomes<I, O, E, C>(ser: Registry<Serializer<E>>, parseQ: QualityParser, inner: Handler<I, O, E, C>, req: Request<I>, ctx: C)
    requires GetSerializer(ser, AcceptPrefs(req, parseQ)).Some?
    ensures var (ires, c1) := inner(req, ctx);
      var (res, c2) := ErrorSerializer(ser, parseQ, inner)(req, ctx);
      && c2 == c1
      && (ires.Ok? ==> res == Ok(ires.value))
      && (ires.Err? ==> res.Err?)
      && (ires.Err? && Serialize(ser, AcceptPrefs(req, parseQ), ires.error).Ok? ==> res.error == Serialize(ser, AcceptPrefs(req, parseQ), ires.error).value)
      && (ires.Err? && Serialize(ser, AcceptPrefs(req, parseQ), ires.error).Err? ==> res.error == Responses.New(500))
  {
  }

  /** `MediaTypeDeserializer::handle`. */
  function DeserializerHandler<I, O, E, C>(de: Registry<Deserializer<I>>, inner: Handler<I, O, E, C>): Handler<seq<byte>, O, E, C> {
    (req: Request<seq<byte>>, ctx: C) =>
      match Deserialize(de, req)
      case Err(e) => (Err(Responses.New(DecodeFailureStatus(e))), ctx)
      case Ok(r) => inner(r, ctx)
  }

  /** The deserializing handler is a request filter whose answer to a
      decoding failure is 400 or 415. */
  lemma DeserializerIsRequestFilter<I, O, E, C>(de: Registry<Deserializer<I>>, inner: Handler<I, O, E, C>, req: Request<seq<byte>>, ctx: C)
    ensures DeserializerHandler(de, inner)(req, ctx) ==
      RequestFilter((r: Request<seq<byte>>, c: C) =>
        (match Deserialize(de, r)
         case Err(e) => Err(Responses.New(DecodeFailureStatus(e)))
         case Ok(x) => Ok(x), c), inner)(req, ctx)
    ensures Deserialize(de, req).Err? ==>
      var res := DeserializerHandler(de, inner)(req, ctx).0;
      res.Err? && res.error.statusCode in {400, 415}
  {
  }
}
