/**
 * The fetcher's view of one comic (the `Comic` struct) and its JSON coding: the
 * eleven coding keys and the decoder `JSONDecoder().decode(Comic.self, ...)`
 * restricted to what the struct's synthesised `Decodable` conformance checks.
 */
module Comics {
  import opened Wrappers
  import opened Decimal

  /** One comic as the remote API describes it; `number` is a `UInt`. */
  datatype Comic = Comic(
    number: nat,
    title: string,
    safeTitle: string,
    year: string,
    month: string,
    day: string,
    image: string,
    alternateText: string,
    link: string,
    news: string,
    transcript: string)

  /** The stored properties of `Comic`, one per coding key. */
  datatype Field =
    | Number | Title | SafeTitle | Year | Month | Day
    | Image | AlternateText | Link | News | Transcript

  /** The JSON key each property is read from (`CodingKeys`). */
  function CodingKey(f: Field): string {
    match f
    case Number => "num"
    case Title => "title"
    case SafeTitle => "safe_title"
    case Year => "year"
    case Month => "month"
    case Day => "day"
    case Image => "img"
    case AlternateText => "alt"
    case Link => "link"
    case News => "news"
    case Transcript => "transcript"
  }

  /** The Swift property name of each field. */
  function PropertyName(f: Field): string {
    match f
    case Number => "number"
    case Title => "title"
    case SafeTitle => "safeTitle"
    case Year => "year"
    case Month => "month"
    case Day => "day"
    case Image => "image"
    case AlternateText => "alternateText"
    case Link => "link"
    case News => "news"
    case Transcript => "transcript"
  }

  /** Four properties are renamed on the wire; the other seven use their own name. */
  lemma CodingKeyNames(f: Field)
    ensures f == Number ==> CodingKey(f) == "num"
    ensures f == SafeTitle ==> CodingKey(f) == "safe_title"
    ensures f == Image ==> CodingKey(f) == "img"
    ensures f == AlternateText ==> CodingKey(f) == "alt"
    ensures CodingKey(f) == PropertyName(f) <==> f !in {Number, SafeTitle, Image, AlternateText}
  {
  }

  /** No two properties share a key, so the eleven keys are eleven distinct members. */
  lemma CodingKeysDistinct(f: Field, g: Field)
    requires CodingKey(f) == CodingKey(g)
    ensures f == g
  {
  }

  /** A JSON document, as far as the decoder distinguishes it. */
  datatype Json =
    | JNull
    | JBool(b: bool)
    | JNumber(n: int)
    | JString(s: string)
    | JArray(items: seq<Json>)
    | JObject(members: map<string, Json>)

  /** The member for `f` when it is present and is a JSON string. */
  function StringMember(members: map<string, Json>, f: Field): Option<string> {
    var key := CodingKey(f);
    if key in members && members[key].JString? then Some(members[key].s) else None
  }

  /** The `num` member when it is present and fits a `UInt`. */
  function NumberMember(members: map<string, Json>): Option<nat> {
    var key := CodingKey(Number);
    if key in members && members[key].JNumber? && 0 <= members[key].n <= UInt64Max
    then Some(members[key].n) else None
  }

  /**
   * Decoding: the document must be an object holding every one of the eleven
   * keys with a value of the property's type; other members are ignored.
   * Any failure is a thrown error, which the fetcher turns into nil.
   */
  function Decode(doc: Json): Option<Comic> {
    if !doc.JObject? then None
    else
      var m := doc.members;
      var number :- NumberMember(m);
      var title :- StringMember(m, Title);
      var safeTitle :- StringMember(m, SafeTitle);
      var year :- StringMember(m, Year);
      var month :- StringMember(m, Month);
      var day :- StringMember(m, Day);
      var image :- StringMember(m, Image);
      var alternateText :- StringMember(m, AlternateText);
      var link :- StringMember(m, Link);
      var news :- StringMember(m, News);
      var transcript :- StringMember(m, Transcript);
      Some(Comic(number, title, safeTitle, year, month, day, image, alternateText, link, news, transcript))
  }

  /** The JSON value a comic's property is written as. */
  function EncodedField(c: Comic, f: Field): Json {
    match f
    case Number => JNumber(c.number)
    case Title => JString(c.title)
    case SafeTitle => JString(c.safeTitle)
    case Year => JString(c.year)
    case Month => JString(c.month)
    case Day => JString(c.day)
    case Image => JString(c.image)
    case AlternateText => JString(c.alternateText)
    case Link => JString(c.link)
    case News => JString(c.news)
    case Transcript => JString(c.transcript)
  }

  /** The document the API serves for a comic (the synthesised `Encodable`). */
  function Encode(c: Comic): Json {
    JObject(map[
      CodingKey(Number) := EncodedField(c, Number),
      CodingKey(Title) := EncodedField(c, Title),
      CodingKey(SafeTitle) := EncodedField(c, SafeTitle),
      CodingKey(Year) := EncodedField(c, Year),
      CodingKey(Month) := EncodedField(c, Month),
      CodingKey(Day) := EncodedField(c, Day),
      CodingKey(Image) := EncodedField(c, Image),
      CodingKey(AlternateText) := EncodedField(c, AlternateText),
      CodingKey(Link) := EncodedField(c, Link),
      CodingKey(News) := EncodedField(c, News),
      CodingKey(Transcript) := EncodedField(c, Transcript)])
  }

  /** Every property sits under its own key in the encoded document. */
  lemma EncodeMembers(c: Comic, f: Field)
    ensures CodingKey(f) in Encode(c).members
    ensures Encode(c).members[CodingKey(f)] == EncodedField(c, f)
  {
  }

  /** A document holding a comic's eleven members decodes to that comic. */
  lemma DecodeEncode(c: Comic)
    requires c.number <= UInt64Max
    ensures Decode(Encode(c)) == Some(c)
  {
    var m := Encode(c).members;
    forall f: Field ensures CodingKey(f) in m && m[CodingKey(f)] == EncodedField(c, f) {
      EncodeMembers(c, f);
    }
    DecodeMatching(m, c);
  }

  /** A document missing any one of the eleven keys fails to decode. */
  lemma DecodeMissingKey(doc: Json, f: Field)
    requires doc.JObject? && CodingKey(f) !in doc.members
    ensures Decode(doc) == None
  {
  }

  /** Decoding succeeds with `c` exactly when every key holds `c`'s property. */
  lemma DecodeExactly(members: map<string, Json>, c: Comic)
    ensures Decode(JObject(members)) == Some(c) <==>
      c.number <= UInt64Max &&
      forall f: Field :: CodingKey(f) in members && members[CodingKey(f)] == EncodedField(c, f)
  {
    if Decode(JObject(members)) == Some(c) {
      forall f: Field ensures CodingKey(f) in members && members[CodingKey(f)] == EncodedField(c, f) {
        match f
        case Number =>
        case Title =>
        case SafeTitle =>
        case Year =>
        case Month =>
        case Day =>
        case Image =>
        case AlternateText =>
        case Link =>
        case News =>
        case Transcript =>
      }
    }
    if c.number <= UInt64Max &&
       forall f: Field :: CodingKey(f) in members && members[CodingKey(f)] == EncodedField(c, f)
    {
      DecodeMatching(members, c);
    }
  }

  lemma DecodeMatching(members: map<string, Json>, c: Comic)
    requires c.number <= UInt64Max
    requires forall f: Field :: CodingKey(f) in members && members[CodingKey(f)] == EncodedField(c, f)
    ensures Decode(JObject(members)) == Some(c)
  {
    assert members[CodingKey(Number)] == EncodedField(c, Number);
    assert members[CodingKey(Title)] == EncodedField(c, Title);
    assert members[CodingKey(SafeTitle)] == EncodedField(c, SafeTitle);
    assert members[CodingKey(Year)] == EncodedField(c, Year);
    assert members[CodingKey(Month)] == EncodedField(c, Month);
    assert members[CodingKey(Day)] == EncodedField(c, Day);
    assert members[CodingKey(Image)] == EncodedField(c, Image);
    assert members[CodingKey(AlternateText)] == EncodedField(c, AlternateText);
    assert members[CodingKey(Link)] == EncodedField(c, Link);
    assert members[CodingKey(News)] == EncodedField(c, News);
    assert members[CodingKey(Transcript)] == EncodedField(c, Transcript);
  }
}
