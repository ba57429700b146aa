/** The USAJOBS provider adapter (fetch_usajobs.js): reading a search
    result item into the common posting shape and its description text. */
module Usajobs {
  import opened Wrappers
  import opened JsText
  import opened Posting

  /** `MatchedObjectDescriptor.UserArea.Details`: the free-text sections. */
  datatype Details = Details(
    jobSummary: Option<string>,       // JobSummary
    majorDuties: Option<string>,      // MajorDuties
    keyRequirements: Option<string>,  // KeyRequirements
    qualifications: Option<string>)   // Qualifications

  /** `MatchedObjectDescriptor.UserArea`. */
  datatype UserArea = UserArea(details: Option<Details>)

  /** `MatchedObjectDescriptor`: the posting itself. */
  datatype Descriptor = Descriptor(
    positionUri: Option<string>,              // PositionURI
    positionTitle: Option<string>,            // PositionTitle
    organizationName: Option<string>,         // OrganizationName
    positionLocationDisplay: Option<string>,  // PositionLocationDisplay
    publicationStartDate: Option<string>,     // PublicationStartDate
    applicationCloseDate: Option<string>,     // ApplicationCloseDate
    userArea: Option<UserArea>)               // UserArea

  /** One element of `SearchResult.SearchResultItems`. */
  datatype Item = Item(
    matchedObjectId: Option<string>,             // MatchedObjectId
    matchedObjectDescriptor: Option<Descriptor>) // MatchedObjectDescriptor

  /** `item?.MatchedObjectDescriptor` */
  function DescriptorOf(item: Option<Item>): (r: Option<Descriptor>)
    ensures r.Some? <==> item.Some? && item.value.matchedObjectDescriptor.Some?
    ensures r.Some? ==> r == item.value.matchedObjectDescriptor
  {
    match item
    case None => None
    case Some(it) => it.matchedObjectDescriptor
  }

  /** `d?.UserArea?.Details` */
  function DetailsOf(item: Option<Item>): (r: Option<Details>)
    ensures (DescriptorOf(item) == None || DescriptorOf(item).value.userArea == None) ==> r == None
    ensures r.Some? ==> DescriptorOf(item).Some? && DescriptorOf(item).value.userArea.Some?
                        && r == DescriptorOf(item).value.userArea.value.details
  {
    match DescriptorOf(item)
    case None => None
    case Some(d) =>
      match d.userArea
      case None => None
      case Some(area) => area.details
  }

  /** The four optional section fields, in the order summary, duties,
      requirements, qualifications. */
  function SectionFields(det: Details): (r: seq<Option<string>>)
    ensures |r| == 4
  {
    [det.jobSummary, det.majorDuties, det.keyRequirements, det.qualifications]
  }

  /** The four sections, each `?? ""`, in the order summary, duties,
      requirements, qualifications. */
  function Sections(item: Option<Item>): (r: seq<string>)
    ensures |r| == 4
    ensures DetailsOf(item) == None ==> forall k :: 0 <= k < 4 ==> r[k] == ""
    ensures forall k :: 0 <= k < 4 && DetailsOf(item).Some? ==>
      r[k] == SectionFields(DetailsOf(item).value)[k].GetOr("")
  {
    match DetailsOf(item)
    case None => ["", "", "", ""]
    case Some(det) =>
      [det.jobSummary.GetOr(""), det.majorDuties.GetOr(""),
       det.keyRequirements.GetOr(""), det.qualifications.GetOr("")]
  }

  /** `.filter(Boolean)` on strings: keep the non-empty ones, in order. */
  function KeepNonEmpty(parts: seq<string>): (r: seq<string>)
    ensures |r| <= |parts|
    ensures forall k :: 0 <= k < |r| ==> r[k] != [] && r[k] in parts
    ensures forall p :: p in parts && p != [] ==> p in r
  {
    if parts == [] then []
    else if parts[0] == [] then KeepNonEmpty(parts[1..])
    else [parts[0]] + KeepNonEmpty(parts[1..])
  }

  /** Filtering a one-element list keeps the element exactly when it is
      non-empty. */
  lemma KeepNonEmptyOne(x: string)
    ensures KeepNonEmpty([x]) == if x == [] then [] else [x]
  {
    assert [x][1..] == [];
  }

  /** Filtering distributes over concatenation: each part is filtered in
      place, so the order and the number of copies of every kept string
      are those of the input. */
  lemma {:induction false} KeepNonEmptyAppend(a: seq<string>, b: seq<string>)
    ensures KeepNonEmpty(a + b) == KeepNonEmpty(a) + KeepNonEmpty(b)
  {
    if a == [] {
      assert a + b == b;
    } else {
      assert (a + b)[0] == a[0] && (a + b)[1..] == a[1..] + b;
      KeepNonEmptyAppend(a[1..], b);
    }
  }

  /** Filtering a list of empty strings leaves nothing. */
  lemma {:induction false} KeepNonEmptyAllEmpty(parts: seq<string>)
    requires forall k :: 0 <= k < |parts| ==> parts[k] == []
    ensures KeepNonEmpty(parts) == []
  {
    if parts != [] {
      KeepNonEmptyAllEmpty(parts[1..]);
    }
  }

  const SectionSeparator: string := "\n\n"

  /** `extractUsajobsDescription`: the non-empty sections joined by a blank
      line. */
  function ExtractDescription(item: Option<Item>): (r: string)
    ensures forall k :: 0 <= k < 4 ==> Contains(r, Sections(item)[k])
  {
    SectionsInDescription(Sections(item));
    Join(KeepNonEmpty(Sections(item)), SectionSeparator)
  }

  /** Each of the parts, empty or not, occurs in the non-empty parts
      joined. */
  lemma SectionsInDescription(parts: seq<string>)
    ensures forall p | p in parts :: Contains(Join(KeepNonEmpty(parts), SectionSeparator), p)
  {
    var kept := KeepNonEmpty(parts);
    var r := Join(kept, SectionSeparator);
    JoinContainsParts(kept, SectionSeparator);
    forall p | p in parts
      ensures Contains(r, p)
    {
      if p == [] {
        assert SliceAt(r, p, 0);
      } else {
        var j :| 0 <= j < |kept| && kept[j] == p;
      }
    }
  }

  /** The description is empty exactly when every section is missing or
      empty; in particular a null item gives `""`. */
  lemma ExtractDescriptionEmpty(item: Option<Item>)
    ensures ExtractDescription(item) == "" <==> forall k :: 0 <= k < 4 ==> Sections(item)[k] == ""
    ensures item == None ==> ExtractDescription(item) == ""
  {
    var parts := KeepNonEmpty(Sections(item));
    if exists k :: 0 <= k < 4 && Sections(item)[k] != "" {
      var k :| 0 <= k < 4 && Sections(item)[k] != "";
      assert Sections(item)[k] in parts;
      var j :| 0 <= j < |parts| && parts[j] == Sections(item)[k];
      assert parts[j] != [];
    } else {
      KeepNonEmptyAllEmpty(Sections(item));
    }
  }

  lemma KeepNonEmptyCons(x: string, rest: seq<string>)
    requires x != []
    ensures KeepNonEmpty([x] + rest) == [x] + KeepNonEmpty(rest)
  {
    assert ([x] + rest)[1..] == rest;
  }

  lemma JoinCons(x: string, rest: seq<string>)
    requires rest != []
    ensures Join([x] + rest, SectionSeparator) == x + SectionSeparator + Join(rest, SectionSeparator)
  {
    assert ([x] + rest)[1..] == rest;
  }

  lemma KeepFourNonEmpty(a: string, b: string, c: string, d: string)
    requires a != "" && b != "" && c != "" && d != ""
    ensures KeepNonEmpty([a, b, c, d]) == [a, b, c, d]
  {
    KeepNonEmptyCons(d, []);
    assert [d] + [] == [d];
    KeepNonEmptyCons(c, [d]);
    assert [c] + [d] == [c, d];
    KeepNonEmptyCons(b, [c, d]);
    assert [b] + [c, d] == [b, c, d];
    KeepNonEmptyCons(a, [b, c, d]);
    assert [a] + [b, c, d] == [a, b, c, d];
  }

  lemma JoinFour(a: string, b: string, c: string, d: string)
    ensures Join([a, b, c, d], SectionSeparator)
         == a + SectionSeparator + b + SectionSeparator + c + SectionSeparator + d
  {
    JoinCons(c, [d]);
    assert [c] + [d] == [c, d];
    JoinCons(b, [c, d]);
    assert [b] + [c, d] == [b, c, d];
    JoinCons(a, [b, c, d]);
    assert [a] + [b, c, d] == [a, b, c, d];
  }

  /** With all four sections present and non-empty the description is
      summary, duties, requirements and qualifications, separated by blank
      lines. */
  lemma ExtractAllSections(item: Option<Item>, a: string, b: string, c: string, d: string)
    requires DetailsOf(item) == Some(Details(Some(a), Some(b), Some(c), Some(d)))
    requires a != "" && b != "" && c != "" && d != ""
    ensures ExtractDescription(item) == a + "\n\n" + b + "\n\n" + c + "\n\n" + d
  {
    assert Sections(item) == [a, b, c, d];
    KeepFourNonEmpty(a, b, c, d);
    JoinFour(a, b, c, d);
  }

  /** Cuts a description back into its sections at every blank line
      (`"\n\n"`); the empty description has no sections. */
  function SplitSections(s: string): seq<string> {
    if s == [] then [] else SplitFrom(s, [])
  }

  /** Splitting s, where cur is the section read so far. */
  function SplitFrom(s: string, cur: string): seq<string>
    decreases |s|
  {
    if s == [] then [cur]
    else if |s| >= 2 && s[0] == '\n' && s[1] == '\n' then [cur] + SplitFrom(s[2..], [])
    else SplitFrom(s[1..], cur + [s[0]])
  }

  /** Every line break of s is a single one with text after it: s holds no
      blank line and does not end with a line break. */
  predicate LineBreaksSingle(s: string) {
    forall k :: 0 <= k < |s| && s[k] == '\n' ==> k + 1 < |s| && s[k + 1] != '\n'
  }

  lemma {:induction false} SplitFromPlain(p: string, rest: string, cur: string)
    requires LineBreaksSingle(p)
    ensures SplitFrom(p + rest, cur) == SplitFrom(rest, cur + p)
  {
    if p == [] {
      assert p + rest == rest && cur + p == cur;
    } else {
      var s := p + rest;
      assert s[0] == p[0] && s[1..] == p[1..] + rest;
      if p[0] == '\n' {
        assert s[1] == p[1] != '\n';
      }
      assert SplitFrom(s, cur) == SplitFrom(s[1..], cur + [p[0]]);
      assert LineBreaksSingle(p[1..]) by {
        forall k | 0 <= k < |p[1..]| && p[1..][k] == '\n'
          ensures k + 1 < |p[1..]| && p[1..][k + 1] != '\n'
        {
          assert p[k + 1] == '\n';
        }
      }
      SplitFromPlain(p[1..], rest, cur + [p[0]]);
      assert cur + [p[0]] + p[1..] == cur + p;
    }
  }

  /** Joining with blank lines and splitting again gives the parts back,
      when every line break inside a part is a single one followed by
      text. */
  lemma {:induction false} SplitJoin(parts: seq<string>)
    requires parts != []
    requires forall k :: 0 <= k < |parts| ==> LineBreaksSingle(parts[k])
    ensures SplitFrom(Join(parts, SectionSeparator), []) == parts
  {
    if |parts| == 1 {
      SplitFromPlain(parts[0], [], []);
      assert parts[0] + [] == parts[0] && [] + parts[0] == parts[0];
    } else {
      var rest := Join(parts[1..], SectionSeparator);
      assert Join(parts, SectionSeparator) == parts[0] + (SectionSeparator + rest);
      SplitFromPlain(parts[0], SectionSeparator + rest, []);
      assert [] + parts[0] == parts[0];
      assert (SectionSeparator + rest)[2..] == rest;
      SplitJoin(parts[1..]);
      assert [parts[0]] + parts[1..] == parts;
    }
  }

  /** The description can be cut back into exactly its non-empty sections,
      in order, when no section holds a blank line or ends with a line
      break: so no empty section sits between two separators and none is
      lost or reordered. */
  lemma ExtractDescriptionSections(item: Option<Item>)
    requires forall k :: 0 <= k < 4 ==> LineBreaksSingle(Sections(item)[k])
    ensures SplitSections(ExtractDescription(item)) == KeepNonEmpty(Sections(item))
  {
    var parts := KeepNonEmpty(Sections(item));
    if parts != [] {
      assert parts[0] != [];
      forall k | 0 <= k < |parts|
        ensures LineBreaksSingle(parts[k])
      {
        assert parts[k] in Sections(item);
      }
      SplitJoin(parts);
    }
  }

  /** `normalizeUsajobsPosting`. */
  function Normalize(item: Option<Item>): (r: NormalizedPosting)
    ensures r.source == "usajobs" && r.country == "US"
    ensures r.source_job_id == (if item.Some? then item.value.matchedObjectId else None)
    ensures DescriptorOf(item) == None ==>
              r.source_url == r.title == r.company == r.location_raw == r.date_posted == r.date_expires == None
    ensures DescriptorOf(item).Some? ==>
              var d := DescriptorOf(item).value;
              && r.source_url == d.positionUri
              && r.title == d.positionTitle
              && r.company == d.organizationName
              && r.location_raw == d.positionLocationDisplay
              && r.date_posted == d.publicationStartDate
              && r.date_expires == d.applicationCloseDate
  {
    var id := match item case None => None case Some(it) => it.matchedObjectId;
    match DescriptorOf(item)
    case None =>
      NormalizedPosting("usajobs", id, None, None, None, None, "US", None, None)
    case Some(d) =>
      NormalizedPosting("usajobs", id, d.positionUri, d.positionTitle, d.organizationName,
                        d.positionLocationDisplay, "US", d.publicationStartDate, d.applicationCloseDate)
  }
}
