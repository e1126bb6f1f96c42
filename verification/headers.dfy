/** Header names and the `Accept` and `Content-Type` header values
    (`src/request/header.rs`). */
module Headers {
  import opened Base
  import opened Text

  /** `Header` equality (and hashing) compare lower-cased names. */
  predicate SameName(a: string, b: string) {
    Lower(a) == Lower(b)
  }

  /** A `HashMap<Header, String>`. Since a `Header` key is found by its
      lower-cased name, the map is keyed by that name. */
  type HeaderMap = map<string, string>

  /** `HashMap::get(&Header::new(name))`. */
  function HeaderGet(h: HeaderMap, name: string): Option<string> {
    if Lower(name) in h then Some(h[Lower(name)]) else None
  }

  /** `HashMap::insert(Header::new(name), value)`: inserts or replaces. */
  function HeaderInsert(h: HeaderMap, name: string, value: string): (r: HeaderMap)
    ensures HeaderGet(r, name) == Some(value)
    ensures forall n :: !SameName(n, name) ==> HeaderGet(r, n) == HeaderGet(h, n)
  {
    h[Lower(name) := value]
  }

  /** `into_iter().collect()` of `(Header, String)` pairs. */
  function HeaderMapOf(pairs: seq<(string, string)>): HeaderMap
    decreases |pairs|
  {
    if pairs == [] then map[]
    else HeaderInsert(HeaderMapOf(pairs[..|pairs| - 1]), pairs[|pairs| - 1].0, pairs[|pairs| - 1].1)
  }

  /** The value of the last pair whose name is the same header as `name`. */
  function LastValue(pairs: seq<(string, string)>, name: string): Option<string>
    decreases |pairs|
  {
    if pairs == [] then None
    else if SameName(pairs[|pairs| - 1].0, name) then Some(pairs[|pairs| - 1].1)
    else LastValue(pairs[..|pairs| - 1], name)
  }

  /** Collecting pairs into a header map keeps, for every name, the value
      of its last occurrence, whatever the spelling of the name. */
  lemma {:induction false} HeaderMapOfLastWins(pairs: seq<(string, string)>, name: string)
    ensures HeaderGet(HeaderMapOf(pairs), name) == LastValue(pairs, name)
    decreases |pairs|
  {
    if pairs != [] {
      HeaderMapOfLastWins(pairs[..|pairs| - 1], name);
    }
  }

  /** `Host` and `host` name the same entry. */
  lemma HostIsCaseInsensitive(h: HeaderMap, v: string)
    ensures HeaderGet(HeaderInsert(h, "Host", v), "host") == Some(v)
    ensures HeaderGet(HeaderInsert(h, "HOST", v), "Host") == Some(v)
  {
    assert Lower("Host") == Lower("host") == Lower("HOST") == "host";
  }

  datatype HeaderParseError = HeaderParseError(header: string, reason: string)

  /** One element of an `Accept` header. The quality is kept as a real
      number: its parsing is a parameter (see `QualityParser`). */
  datatype MediaTypePreference = MediaTypePreference(mimeType: string, mimeSubtype: string, quality: real)

  /** `str::parse::<f32>`, left uninterpreted. */
  type QualityParser = string -> Option<real>

  /** `MediaTypeMatch for &MediaTypePreference`: a preference of type `*`
      accepts every media type; otherwise the types must agree and the
      subtype must be `*` or agree. */
  predicate PreferenceMatches(p: MediaTypePreference, mimeType: string, mimeSubtype: string) {
    if p.mimeType == "*" then true
    else if p.mimeType == mimeType then
      if p.mimeSubtype == "*" then true else p.mimeSubtype == mimeSubtype
    else false
  }

  /** `MediaTypePreference::from_str`. */
  function ParsePreference(s: string, parseQ: QualityParser): (r: Result<MediaTypePreference, HeaderParseError>)
    ensures r.Err? ==> r.error.header == "Accept"
    ensures r.Err? ==> r.error.reason == "invalid q value" || r.error.reason == "invalid mimetype format"
    ensures r.Ok? ==>
      var pieces := Split(s, ';');
      && pieces[0] == r.value.mimeType + "/" + r.value.mimeSubtype
      && '/' !in r.value.mimeType && '/' !in r.value.mimeSubtype
      && (|pieces| == 1 ==> r.value.quality == 1.0)
      && (|pieces| == 2 ==> parseQ(pieces[1]).Some? && r.value.quality == parseQ(pieces[1]).value)
      && |pieces| <= 2
  {
    var parts := Split(s, ';');
    var typeAndQ :-
      if |parts| == 1 then Ok((parts[0], 1.0))
      else if |parts| == 2 then
        match parseQ(parts[1])
        case Some(q) => Ok((parts[0], q))
        case None => Err(HeaderParseError("Accept", "invalid q value"))
      else Err(HeaderParseError("Accept", "invalid mimetype format"));
    var typeParts := Split(typeAndQ.0, '/');
    if |typeParts| == 2 then
      JoinSplit(typeAndQ.0, '/');
      Ok(MediaTypePreference(typeParts[0], typeParts[1], typeAndQ.1))
    else Err(HeaderParseError("Accept", "invalid mimetype format"))
  }

  /** A second piece that is not a number rejects the preference with
      "invalid q value", whatever the first piece is. */
  lemma BadQualityRejected(s: string, parseQ: QualityParser)
    requires |Split(s, ';')| == 2 && parseQ(Split(s, ';')[1]).None?
    ensures ParsePreference(s, parseQ) == Err(HeaderParseError("Accept", "invalid q value"))
  {
  }

  /** A bare `type/subtype` parses with quality 1, and `type/subtype;x`
      with the quality `x` parses to. */
  lemma ParsePreferenceOf(t: string, st: string, qText: Option<string>, parseQ: QualityParser)
    requires '/' !in t && ';' !in t && '/' !in st && ';' !in st
    requires qText.Some? ==> ';' !in qText.value && parseQ(qText.value).Some?
    ensures ParsePreference(t + "/" + st + (if qText.Some? then ";" + qText.value else ""), parseQ)
      == Ok(MediaTypePreference(t, st, if qText.Some? then parseQ(qText.value).value else 1.0))
  {
    var mt := t + "/" + st;
    assert mt == t + ['/'] + st;
    assert ';' !in mt;
    SplitHead(t, '/', st);
    SplitNoSep(st, '/');
    assert Split(mt, '/') == [t, st];
    var s := mt + (if qText.Some? then ";" + qText.value else "");
    if qText.Some? {
      assert s == mt + [';'] + qText.value;
      SplitHead(mt, ';', qText.value);
      SplitNoSep(qText.value, ';');
      assert Split(s, ';') == [mt, qText.value];
    } else {
      assert s == mt;
      SplitNoSep(mt, ';');
    }
  }

  /** With one `;`, everything after it, a `q=` included, goes to the
      number parser: so the form `application/xml;q=0.9` shown in the
      source's own comment is refused with "invalid q value", since no
      float parser accepts `q=0.9`. */
  lemma QualityTextIsWholeParameter(t: string, st: string, qText: string, parseQ: QualityParser)
    requires ';' !in t && ';' !in st && ';' !in qText
    requires parseQ(qText) == None
    ensures ParsePreference(t + "/" + st + ";" + qText, parseQ) == Err(HeaderParseError("Accept", "invalid q value"))
  {
    var mt := t + "/" + st;
    assert ';' !in mt;
    assert t + "/" + st + ";" + qText == mt + [';'] + qText;
    SplitHead(mt, ';', qText);
    SplitNoSep(qText, ';');
  }

  /** A parsed `Accept` header: preferences in try order. */
  type Accept = seq<MediaTypePreference>

  /** The preferences of the comma-separated items that parse, in header
      order. */
  function ValidPreferences(items: seq<string>, parseQ: QualityParser): seq<MediaTypePreference>
    decreases |items|
  {
    if items == [] then []
    else
      var rest := ValidPreferences(items[1..], parseQ);
      match ParsePreference(Trim(items[0]), parseQ)
      case Ok(p) => [p] + rest
      case Err(_) => rest
  }

  /** The order preferences are tried in: `sort_by` as written puts the
      lowest quality first; a client means the highest quality first. */
  datatype QualityOrder = LowestFirst | HighestFirst

  /** Whether a preference of quality `a` may come before one of quality
      `b`. */
  predicate Precedes(a: real, b: real, o: QualityOrder) {
    if o.LowestFirst? then a <= b else a >= b
  }

  predicate SortedByQuality(s: seq<MediaTypePreference>, o: QualityOrder) {
    forall i, j :: 0 <= i < j < |s| ==> Precedes(s[i].quality, s[j].quality, o)
  }

  /** The elements of `s` with quality `q`, in order. */
  function WithQuality(s: seq<MediaTypePreference>, q: real): seq<MediaTypePreference> {
    if s == [] then []
    else (if s[0].quality == q then [s[0]] else []) + WithQuality(s[1..], q)
  }

  /** Inserts `x` before the first element it may precede. */
  function InsertByQuality(x: MediaTypePreference, t: seq<MediaTypePreference>, o: QualityOrder): (r: seq<MediaTypePreference>)
    ensures multiset(r) == multiset(t) + multiset{x}
    ensures |r| == |t| + 1
  {
    if t == [] || Precedes(x.quality, t[0].quality, o) then [x] + t
    else
      assert t == [t[0]] + t[1..];
      [t[0]] + InsertByQuality(x, t[1..], o)
  }

  /** A stable insertion sort on quality: `sort_by` with `LowestFirst`. */
  function SortByQuality(s: seq<MediaTypePreference>, o: QualityOrder): (r: seq<MediaTypePreference>)
    ensures multiset(r) == multiset(s)
  {
    if s == [] then []
    else
      assert s == [s[0]] + s[1..];
      InsertByQuality(s[0], SortByQuality(s[1..], o), o)
  }

  lemma {:induction false} InsertSorted(x: MediaTypePreference, t: seq<MediaTypePreference>, o: QualityOrder)
    requires SortedByQuality(t, o)
    ensures SortedByQuality(InsertByQuality(x, t, o), o)
    ensures InsertByQuality(x, t, o) != [] && (InsertByQuality(x, t, o)[0] == x || (t != [] && InsertByQuality(x, t, o)[0] == t[0]))
  {
    if t != [] && !Precedes(x.quality, t[0].quality, o) {
      InsertSorted(x, t[1..], o);
    }
  }

  lemma {:induction false} SortSorted(s: seq<MediaTypePreference>, o: QualityOrder)
    ensures SortedByQuality(SortByQuality(s, o), o)
  {
    if s != [] {
      SortSorted(s[1..], o);
      InsertSorted(s[0], SortByQuality(s[1..], o), o);
    }
  }

  lemma WithQualityCons(y: MediaTypePreference, t: seq<MediaTypePreference>, q: real)
    ensures WithQuality([y] + t, q) == (if y.quality == q then [y] else []) + WithQuality(t, q)
  {
    assert ([y] + t)[1..] == t;
  }

  /** An element that may not precede the head goes after it. */
  lemma InsertPassesHead(x: MediaTypePreference, t: seq<MediaTypePreference>, o: QualityOrder)
    requires t != [] && !Precedes(x.quality, t[0].quality, o)
    ensures InsertByQuality(x, t, o) == [t[0]] + InsertByQuality(x, t[1..], o)
  {
  }

  /** Two pieces, one of them empty, commute in front of a third. */
  lemma SwapBesideEmpty<T>(a: seq<T>, b: seq<T>, c: seq<T>)
    requires a == [] || b == []
    ensures a + (b + c) == b + (a + c)
  {
    if a == [] {
      assert a + (b + c) == b + c == b + (a + c);
    } else {
      assert a + (b + c) == a + c == b + (a + c);
    }
  }

  lemma {:induction false} InsertKeepsQualityClass(x: MediaTypePreference, t: seq<MediaTypePreference>, o: QualityOrder, q: real)
    ensures WithQuality(InsertByQuality(x, t, o), q) == (if x.quality == q then [x] else []) + WithQuality(t, q)
  {
    var wx := if x.quality == q then [x] else [];
    if t != [] && !Precedes(x.quality, t[0].quality, o) {
      var rest := InsertByQuality(x, t[1..], o);
      var w0 := if t[0].quality == q then [t[0]] else [];
      InsertKeepsQualityClass(x, t[1..], o, q);
      InsertPassesHead(x, t, o);
      WithQualityCons(t[0], rest, q);
      assert WithQuality(t, q) == w0 + WithQuality(t[1..], q);
      assert x.quality != t[0].quality;
      assert wx == [] || w0 == [];
      SwapBesideEmpty(w0, wx, WithQuality(t[1..], q));
    } else {
      assert InsertByQuality(x, t, o) == [x] + t;
      WithQualityCons(x, t, q);
    }
  }

  /** Stability: within one quality, the sorted list keeps the order of the
      input. */
  lemma {:induction false} SortIsStable(s: seq<MediaTypePreference>, o: QualityOrder, q: real)
    ensures WithQuality(SortByQuality(s, o), q) == WithQuality(s, q)
  {
    if s != [] {
      SortIsStable(s[1..], o, q);
      InsertKeepsQualityClass(s[0], SortByQuality(s[1..], o), o, q);
    }
  }

  /** The preferences of a header value in the given try order, ties in
      header order. */
  function OrderedAccept(s: string, parseQ: QualityParser, o: QualityOrder): (r: Accept)
    ensures SortedByQuality(r, o)
    ensures multiset(r) == multiset(ValidPreferences(Split(s, ','), parseQ))
    ensures forall q :: WithQuality(r, q) == WithQuality(ValidPreferences(Split(s, ','), parseQ), q)
  {
    var prefs := ValidPreferences(Split(s, ','), parseQ);
    SortSorted(prefs, o);
    forall q ensures WithQuality(SortByQuality(prefs, o), q) == WithQuality(prefs, q) {
      SortIsStable(prefs, o, q);
    }
    SortByQuality(prefs, o)
  }

  /** `Accept::from_str`: never fails; the items that parse, ordered by
      ascending quality, ties in header order. */
  function ParseAccept(s: string, parseQ: QualityParser): (r: Result<Accept, HeaderParseError>)
    ensures r.Ok?
    ensures SortedByQuality(r.value, LowestFirst)
    ensures multiset(r.value) == multiset(ValidPreferences(Split(s, ','), parseQ))
    ensures forall q :: WithQuality(r.value, q) == WithQuality(ValidPreferences(Split(s, ','), parseQ), q)
  {
    Ok(OrderedAccept(s, parseQ, LowestFirst))
  }

  /** `Accept::from_str` as a client means it: the highest quality first,
      ties in header order. */
  function ParseAcceptIntended(s: string, parseQ: QualityParser): (r: Result<Accept, HeaderParseError>)
    ensures r.Ok?
    ensures SortedByQuality(r.value, HighestFirst)
    ensures multiset(r.value) == multiset(ValidPreferences(Split(s, ','), parseQ))
    ensures forall q :: WithQuality(r.value, q) == WithQuality(ValidPreferences(Split(s, ','), parseQ), q)
  {
    Ok(OrderedAccept(s, parseQ, HighestFirst))
  }

  /** A header none of whose items parse gives an empty preference list,
      not an error. */
  lemma AllInvalidAcceptIsEmpty(s: string, parseQ: QualityParser)
    requires forall i :: 0 <= i < |Split(s, ',')| ==> ParsePreference(Trim(Split(s, ',')[i]), parseQ).Err?
    ensures ParseAccept(s, parseQ) == Ok([])
  {
    NoValidPreferences(Split(s, ','), parseQ);
  }

  lemma {:induction false} NoValidPreferences(items: seq<string>, parseQ: QualityParser)
    requires forall i :: 0 <= i < |items| ==> ParsePreference(Trim(items[i]), parseQ).Err?
    ensures ValidPreferences(items, parseQ) == []
  {
    if items != [] {
      NoValidPreferences(items[1..], parseQ);
    }
  }

  datatype ContentType = ContentType(mimeType: string, mimeSubtype: string, charset: Option<string>, boundary: Option<string>)

  /** `MediaTypeMatch for &ContentType`: exact, case-sensitive equality of
      type and subtype; no wildcards. */
  predicate ContentTypeMatches(ct: ContentType, mimeType: string, mimeSubtype: string) {
    ct.mimeType == mimeType && ct.mimeSubtype == mimeSubtype
  }

  /** A `key=value` parameter piece. */
  predicate IsKeyValue(piece: string) {
    |Split(Trim(piece), '=')| == 2
  }

  /** The value of the last `key=value` piece with the given key: a later
      piece overrides every earlier one. */
  function LastParameter(pieces: seq<string>, key: string): Option<string>
    decreases |pieces|
  {
    if pieces == [] then None
    else
      var later := LastParameter(pieces[1..], key);
      var kv := Split(Trim(pieces[0]), '=');
      if later.Some? then later
      else if |kv| == 2 && kv[0] == key then Some(kv[1])
      else None
  }

  /** The parameter loop of `ContentType::from_str`, left to right. */
  function ParseParameters(pieces: seq<string>, charset: Option<string>, boundary: Option<string>): (r: Result<(Option<string>, Option<string>), HeaderParseError>)
    ensures r.Ok? <==> forall i :: 0 <= i < |pieces| ==> IsKeyValue(pieces[i])
    ensures r.Err? ==> r.error == HeaderParseError("Content-Type", "invalid key-value")
    ensures r.Ok? ==> r.value.0 == (if LastParameter(pieces, "charset").Some? then LastParameter(pieces, "charset") else charset)
    ensures r.Ok? ==> r.value.1 == (if LastParameter(pieces, "boundary").Some? then LastParameter(pieces, "boundary") else boundary)
    decreases |pieces|
  {
    if pieces == [] then Ok((charset, boundary))
    else
      var kv := Split(Trim(pieces[0]), '=');
      if |kv| == 2 then
        var charset' := if kv[0] == "charset" then Some(kv[1]) else charset;
        var boundary' := if kv[0] == "boundary" then Some(kv[1]) else boundary;
        assert forall i :: 1 <= i < |pieces| ==> pieces[i] == pieces[1..][i - 1];
        ParseParameters(pieces[1..], charset', boundary')
      else Err(HeaderParseError("Content-Type", "invalid key-value"))
  }

  /** `ContentType::from_str`. */
  function ParseContentType(s: string): (r: Result<ContentType, HeaderParseError>)
    ensures r.Err? ==> r.error.header == "Content-Type" && r.error.reason != "empty"
    ensures
      var pieces := Split(s, ';');
      var media := Split(Trim(pieces[0]), '/');
      && (|media| != 2 ==> r == Err(HeaderParseError("Content-Type", "invalid mimetype format")))
      && (r.Ok? <==> |media| == 2 && forall i :: 1 <= i < |pieces| ==> IsKeyValue(pieces[i]))
      && (r.Ok? ==> Trim(pieces[0]) == r.value.mimeType + "/" + r.value.mimeSubtype)
      && (r.Ok? ==> r.value.charset == LastParameter(pieces[1..], "charset"))
      && (r.Ok? ==> r.value.boundary == LastParameter(pieces[1..], "boundary"))
  {
    var pieces := Split(s, ';');
    if |pieces| == 0 then Err(HeaderParseError("Content-Type", "empty"))
    else
      var media := Split(Trim(pieces[0]), '/');
      if |media| != 2 then Err(HeaderParseError("Content-Type", "invalid mimetype format"))
      else
        JoinSplit(Trim(pieces[0]), '/');
        var params :- ParseParameters(pieces[1..], None, None);
        assert forall i :: 1 <= i < |pieces| ==> pieces[i] == pieces[1..][i - 1];
        Ok(ContentType(media[0], media[1], params.0, params.1))
  }

  /** An empty `Content-Type` is a malformed media type, never "empty". */
  lemma EmptyContentType()
    ensures ParseContentType("") == Err(HeaderParseError("Content-Type", "invalid mimetype format"))
  {
    assert Split("", ';') == [""];
    assert Trim("") == "";
    assert Split("", '/') == [""];
  }
}
