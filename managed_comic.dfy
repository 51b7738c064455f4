/**
 * `ManagedComic`, the stored form of a comic, and its `willSave` hook, which
 * keeps four search twins equal to the folded form of their source fields.
 * The folding (`String.normalized`, a locale-dependent case and diacritic
 * fold) is a parameter `normalize`.
 */
module ManagedComics {
  import opened Wrappers

  /** A `URL`, seen through its `absoluteString`. */
  datatype Url = Url(absoluteString: string)

  /** The attributes of one stored comic; `date` is seconds from the reference date. */
  datatype Record = Record(
    number: int,
    title: string,
    safeTitle: string,
    safeTitleNormalized: string,
    date: int,
    year: int,
    image: string,
    alternateText: Option<string>,
    alternateTextNormalized: Option<string>,
    link: Option<Url>,
    linkNormalized: Option<string>,
    news: Option<string>,
    transcript: Option<string>,
    transcriptNormalized: Option<string>)

  /** The four normalised twins. */
  datatype Twin = AlternateTextTwin | LinkTwin | SafeTitleTwin | TranscriptTwin

  /** `text?.normalized`. */
  function NormalizedOptional(text: Option<string>, normalize: string -> string): (r: Option<string>)
    ensures r.Some? <==> text.Some?
  {
    match text
    case None => None
    case Some(t) => Some(normalize(t))
  }

  /** `link?.absoluteString.normalized`. */
  function NormalizedLink(link: Option<Url>, normalize: string -> string): (r: Option<string>)
    ensures r.Some? <==> link.Some?
  {
    match link
    case None => None
    case Some(u) => Some(normalize(u.absoluteString))
  }

  /** The twin holds the fold of its source field. */
  predicate TwinCurrent(r: Record, t: Twin, normalize: string -> string) {
    match t
    case AlternateTextTwin => r.alternateTextNormalized == NormalizedOptional(r.alternateText, normalize)
    case LinkTwin => r.linkNormalized == NormalizedLink(r.link, normalize)
    case SafeTitleTwin => r.safeTitleNormalized == normalize(r.safeTitle)
    case TranscriptTwin => r.transcriptNormalized == NormalizedOptional(r.transcript, normalize)
  }

  /** All four twins are up to date: the state search relies on. */
  predicate TwinsCurrent(r: Record, normalize: string -> string) {
    && TwinCurrent(r, AlternateTextTwin, normalize)
    && TwinCurrent(r, LinkTwin, normalize)
    && TwinCurrent(r, SafeTitleTwin, normalize)
    && TwinCurrent(r, TranscriptTwin, normalize)
  }

  /** The twins `willSave` assigns: those that differ from their target. */
  function StaleTwins(r: Record, normalize: string -> string): set<Twin> {
    set t: Twin | !TwinCurrent(r, t, normalize)
  }

  /** The stale twins, listed field by field. */
  lemma StaleTwinsByField(r: Record, normalize: string -> string)
    ensures StaleTwins(r, normalize)
         == (if !TwinCurrent(r, AlternateTextTwin, normalize) then {AlternateTextTwin} else {})
          + (if !TwinCurrent(r, LinkTwin, normalize) then {LinkTwin} else {})
          + (if !TwinCurrent(r, SafeTitleTwin, normalize) then {SafeTitleTwin} else {})
          + (if !TwinCurrent(r, TranscriptTwin, normalize) then {TranscriptTwin} else {})
  {
    var listed := (if !TwinCurrent(r, AlternateTextTwin, normalize) then {AlternateTextTwin} else {})
                + (if !TwinCurrent(r, LinkTwin, normalize) then {LinkTwin} else {})
                + (if !TwinCurrent(r, SafeTitleTwin, normalize) then {SafeTitleTwin} else {})
                + (if !TwinCurrent(r, TranscriptTwin, normalize) then {TranscriptTwin} else {});
    forall t: Twin ensures t in listed <==> !TwinCurrent(r, t, normalize) {
      match t
      case AlternateTextTwin =>
      case LinkTwin =>
      case SafeTitleTwin =>
      case TranscriptTwin =>
    }
  }

  /** A record with its twins cleared: the fields `willSave` never touches. */
  function Sources(r: Record): Record {
    r.(safeTitleNormalized := [], alternateTextNormalized := None,
       linkNormalized := None, transcriptNormalized := None)
  }

  /**
   * The record after `willSave`. Assigning a twin that already holds its
   * target leaves the same value, so the record is the same whether or not
   * the write happens; which writes happen is `StaleTwins`.
   */
  function AfterWillSave(r: Record, normalize: string -> string): (saved: Record)
    ensures TwinsCurrent(saved, normalize)
    ensures Sources(saved) == Sources(r)
  {
    r.(alternateTextNormalized := NormalizedOptional(r.alternateText, normalize),
       linkNormalized := NormalizedLink(r.link, normalize),
       safeTitleNormalized := normalize(r.safeTitle),
       transcriptNormalized := NormalizedOptional(r.transcript, normalize))
  }

  /** The hook is the identity exactly on records whose twins are current. */
  lemma AfterWillSaveFixesCurrent(r: Record, normalize: string -> string)
    ensures AfterWillSave(r, normalize) == r <==> TwinsCurrent(r, normalize)
    ensures StaleTwins(r, normalize) == {} <==> TwinsCurrent(r, normalize)
  {
    if !TwinsCurrent(r, normalize) {
      var t: Twin :| !TwinCurrent(r, t, normalize);
      assert t in StaleTwins(r, normalize);
    }
  }

  /** A second `willSave` changes nothing and writes nothing. */
  lemma WillSaveIdempotent(r: Record, normalize: string -> string)
    ensures AfterWillSave(AfterWillSave(r, normalize), normalize) == AfterWillSave(r, normalize)
    ensures StaleTwins(AfterWillSave(r, normalize), normalize) == {}
  {
    AfterWillSaveFixesCurrent(AfterWillSave(r, normalize), normalize);
  }

  /** Core Data's managed object for one comic; `willSave` updates it in place. */
  class ManagedComic {
    var number: int
    var title: string
    var safeTitle: string
    var safeTitleNormalized: string
    var date: int
    var year: int
    var image: string
    var alternateText: Option<string>
    var alternateTextNormalized: Option<string>
    var link: Option<Url>
    var linkNormalized: Option<string>
    var news: Option<string>
    var transcript: Option<string>
    var transcriptNormalized: Option<string>

    constructor (r: Record)
      ensures Snapshot() == r
    {
      number, title, safeTitle, safeTitleNormalized := r.number, r.title, r.safeTitle, r.safeTitleNormalized;
      date, year, image := r.date, r.year, r.image;
      alternateText, alternateTextNormalized := r.alternateText, r.alternateTextNormalized;
      link, linkNormalized, news := r.link, r.linkNormalized, r.news;
      transcript, transcriptNormalized := r.transcript, r.transcriptNormalized;
    }

    /** The object's attribute values. */
    function Snapshot(): Record
      reads this
    {
      Record(number, title, safeTitle, safeTitleNormalized, date, year, image,
             alternateText, alternateTextNormalized, link, linkNormalized, news,
             transcript, transcriptNormalized)
    }

    /**
     * `willSave()`: each twin that differs from the fold of its source is
     * overwritten; the others are not written. Returns the twins written.
     */
    method WillSave(normalize: string -> string) returns (written: set<Twin>)
      modifies this
      ensures Snapshot() == AfterWillSave(old(Snapshot()), normalize)
      ensures written == StaleTwins(old(Snapshot()), normalize)
      ensures TwinsCurrent(Snapshot(), normalize)
      ensures Sources(Snapshot()) == Sources(old(Snapshot()))
    {
      ghost var before := Snapshot();
      var staleAlternateText := alternateTextNormalized != NormalizedOptional(alternateText, normalize);
      var staleLink := linkNormalized != NormalizedLink(link, normalize);
      var staleSafeTitle := safeTitleNormalized != normalize(safeTitle);
      var staleTranscript := transcriptNormalized != NormalizedOptional(transcript, normalize);
      if staleAlternateText {
        alternateTextNormalized := NormalizedOptional(alternateText, normalize);
      }
      if staleLink {
        linkNormalized := NormalizedLink(link, normalize);
      }
      if staleSafeTitle {
        safeTitleNormalized := normalize(safeTitle);
      }
      if staleTranscript {
        transcriptNormalized := NormalizedOptional(transcript, normalize);
      }
      written := (if staleAlternateText then {AlternateTextTwin} else {})
               + (if staleLink then {LinkTwin} else {})
               + (if staleSafeTitle then {SafeTitleTwin} else {})
               + (if staleTranscript then {TranscriptTwin} else {});
      StaleTwinsByField(before, normalize);
    }
  }
}
