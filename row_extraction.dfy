/** The string rules applied to each row of the main listing: the detail link loses
    its session segment, the country comes from the heading whose id ends in the
    number carried by the name cell's `headers` attribute, and the row becomes the
    record the exhibit page completes. */
module RowExtraction {

  import opened Wrappers
  import opened Text
  import opened FaraExceptions
  import opened Items
  import opened Selectors

  // ---------------------------------------------------------------------------
  // The detail link

  /** The link with its third colon-separated segment (the session) emptied; a link
      with fewer than three segments has no such segment to index. */
  function StripSessionSegment(href: string): (r: Result<string, FaraError>)
    ensures r.Success? <==> |SplitOn(href, ":")| >= 3
    ensures r.Failure? ==> r.error == MalformedMarkupError(href)
  {
    var segments := SplitOn(href, ":");
    if |segments| < 3 then Failure(MalformedMarkupError(href))
    else Success(JoinWith(":", segments[2 := ""]))
  }

  /** The rewritten link has the same segments as the original, except that the
      third is empty. */
  lemma StripSessionSegmentSegments(href: string)
    requires StripSessionSegment(href).Success?
    ensures var before, after := SplitOn(href, ":"), SplitOn(StripSessionSegment(href).value, ":");
      && |after| == |before|
      && after[2] == ""
      && forall k :: 0 <= k < |before| && k != 2 ==> after[k] == before[k]
  {
    var segments := SplitOn(href, ":");
    var blanked := segments[2 := ""];
    SplitOnPieces(href, ":");
    forall k | 0 <= k < |blanked| ensures !Contains(blanked[k], [':']) {
      if k == 2 {
        assert !OccursAt("", ":", 0);
      } else {
        assert blanked[k] == segments[k];
      }
    }
    SplitJoin(blanked, ':');
  }

  /** Rewriting an already rewritten link changes nothing. */
  lemma StripSessionSegmentIdempotent(href: string)
    requires StripSessionSegment(href).Success?
    ensures StripSessionSegment(StripSessionSegment(href).value) == StripSessionSegment(href)
  {
    var once := StripSessionSegment(href).value;
    StripSessionSegmentSegments(href);
    var segments := SplitOn(once, ":");
    assert segments[2 := ""] == segments;
    JoinSplit(once, ":");
  }

  /** The full url of a row: the rewritten link resolved against the page's address,
      None when the row has no link. */
  function DetailUrl(href: Option<string>, urljoin: string -> string): (r: Result<Option<string>, FaraError>)
    ensures href.None? ==> r == Success(None)
    ensures href.Some? ==> (r.Success? <==> StripSessionSegment(href.value).Success?)
    ensures href.Some? && r.Success? ==> r.value == Some(urljoin(StripSessionSegment(href.value).value))
  {
    match href
    case None => Success(None)
    case Some(h) =>
      match StripSessionSegment(h)
      case Failure(e) => Failure(e)
      case Success(stripped) => Success(Some(urljoin(stripped)))
  }

  // ---------------------------------------------------------------------------
  // The country

  /** The number at the end of the name cell's `headers`: the last `_`-separated piece
      of its second space-separated token. A missing attribute or a single token
      cannot be indexed. */
  function CountryNumberId(headers: Option<string>): (r: Result<string, FaraError>)
    ensures headers.None? ==> r.Failure?
    ensures r.Success? <==> headers.Some? && |SplitOn(headers.value, " ")| >= 2
    ensures r.Success? ==> !Contains(r.value, "_")
    ensures r.Failure? && headers.Some? ==> r.error == MalformedMarkupError(headers.value)
    ensures r.Failure? && headers.None? ==> r.error == MalformedMarkupError("")
  {
    match headers
    case None => Failure(MalformedMarkupError(""))
    case Some(h) =>
      var tokens := SplitOn(h, " ");
      if |tokens| < 2 then Failure(MalformedMarkupError(h))
      else
        var pieces := SplitOn(tokens[1], "_");
        SplitOnPieces(tokens[1], "_");
        Success(pieces[|pieces| - 1])
  }

  /** Whatever the tokens and pieces, the id read back is the last piece of the
      second token. */
  lemma CountryNumberIdOfJoin(tokens: seq<string>, pieces: seq<string>)
    requires |tokens| >= 2 && |pieces| >= 1
    requires forall k :: 0 <= k < |tokens| ==> !Contains(tokens[k], " ")
    requires forall k :: 0 <= k < |pieces| ==> !Contains(pieces[k], "_")
    requires tokens[1] == JoinWith("_", pieces)
    ensures CountryNumberId(Some(JoinWith(" ", tokens))) == Success(pieces[|pieces| - 1])
  {
    var h := JoinWith(" ", tokens);
    SplitJoin(tokens, ' ');
    SplitJoin(pieces, '_');
    CountryNumberIdOfSplits(h, tokens, pieces);
  }

  /** The id read from a `headers` value whose tokens and pieces are known. */
  lemma CountryNumberIdOfSplits(h: string, tokens: seq<string>, pieces: seq<string>)
    requires SplitOn(h, " ") == tokens && |tokens| >= 2
    requires SplitOn(tokens[1], "_") == pieces
    ensures CountryNumberId(Some(h)) == Success(pieces[|pieces| - 1])
  {
  }

  /** The `id` of the heading that names the country with number `id`. */
  function CountryHeadingId(id: string): (r: string)
    ensures |r| == 19 + |id| && r[..19] == "BREAK_COUNTRY_NAME_" && r[19..] == id
  {
    "BREAK_COUNTRY_NAME_" + id
  }

  /** The first text of the heading with that id; `headings` maps each heading id of
      the page to the texts of its span. */
  function CountryName(headings: map<string, seq<string>>, id: string): (r: Option<string>)
    ensures r.Some? ==> CountryHeadingId(id) in headings && |headings[CountryHeadingId(id)]| > 0 && r.value == headings[CountryHeadingId(id)][0]
    ensures r.None? <==> CountryHeadingId(id) !in headings || headings[CountryHeadingId(id)] == []
  {
    var key := CountryHeadingId(id);
    if key in headings && headings[key] != [] then Some(headings[key][0]) else None
  }

  /** Distinct numbers name distinct headings. */
  lemma CountryHeadingIdInjective(a: string, b: string)
    requires CountryHeadingId(a) == CountryHeadingId(b)
    ensures a == b
  {
    assert a == CountryHeadingId(a)[19..];
  }

  // ---------------------------------------------------------------------------
  // A row of the listing

  /** What each of a row's cell queries returns. */
  datatype MainRowCells = MainRowCells(
    linkHrefs: seq<string>,
    names: seq<string>,
    addressLines: seq<string>,
    states: seq<string>,
    registrants: seq<string>,
    regNumbers: seq<string>,
    regDates: seq<string>,
    nameHeaders: seq<string>)

  /** The record a row yields, as the exhibit page receives it. */
  datatype RowData = RowData(
    url: Option<string>,
    foreignPrincipal: Option<string>,
    address: seq<string>,
    state: Option<string>,
    registrant: Option<string>,
    regNum: Option<string>,
    date: Option<string>,
    country: Option<string>)

  /** The record of one row, or the error its markup raises: the link is handled
      before the country. */
  function RowOfCells(cells: MainRowCells, headings: map<string, seq<string>>, urljoin: string -> string)
    : (r: Result<RowData, FaraError>)
    ensures r.Success? <==> DetailUrl(ExtractFirst(cells.linkHrefs), urljoin).Success?
                            && CountryNumberId(ExtractFirst(cells.nameHeaders)).Success?
    ensures r.Success? ==> r.value.url == DetailUrl(ExtractFirst(cells.linkHrefs), urljoin).value
    ensures r.Success? ==> r.value.country == CountryName(headings, CountryNumberId(ExtractFirst(cells.nameHeaders)).value)
    ensures r.Success? ==> r.value.address == cells.addressLines && r.value.date == ExtractFirst(cells.regDates)
    ensures r.Success? ==> r.value.foreignPrincipal == ExtractFirst(cells.names) && r.value.state == ExtractFirst(cells.states)
                           && r.value.registrant == ExtractFirst(cells.registrants) && r.value.regNum == ExtractFirst(cells.regNumbers)
    ensures DetailUrl(ExtractFirst(cells.linkHrefs), urljoin).Failure? ==> r == Failure(DetailUrl(ExtractFirst(cells.linkHrefs), urljoin).error)
    ensures DetailUrl(ExtractFirst(cells.linkHrefs), urljoin).Success? && CountryNumberId(ExtractFirst(cells.nameHeaders)).Failure? ==>
      r == Failure(CountryNumberId(ExtractFirst(cells.nameHeaders)).error)
  {
    match DetailUrl(ExtractFirst(cells.linkHrefs), urljoin)
    case Failure(e) => Failure(e)
    case Success(url) =>
      match CountryNumberId(ExtractFirst(cells.nameHeaders))
      case Failure(e) => Failure(e)
      case Success(id) =>
        Success(RowData(url, ExtractFirst(cells.names), cells.addressLines, ExtractFirst(cells.states),
                        ExtractFirst(cells.registrants), ExtractFirst(cells.regNumbers), ExtractFirst(cells.regDates),
                        CountryName(headings, id)))
  }

  /** `extract_data_from_main_page`: the records of the rows in page order; a row
      whose markup raises ends the page, after the records of the rows before it. */
  method ExtractDataFromMainPage(rows: seq<MainRowCells>, headings: map<string, seq<string>>, urljoin: string -> string)
    returns (records: seq<RowData>, err: Option<FaraError>)
    ensures |records| <= |rows|
    ensures forall k :: 0 <= k < |records| ==> RowOfCells(rows[k], headings, urljoin) == Success(records[k])
    ensures err.None? ==> |records| == |rows|
    ensures err.Some? ==> |records| < |rows| && RowOfCells(rows[|records|], headings, urljoin) == Failure(err.value)
  {
    records := [];
    err := None;
    var i := 0;
    while i < |rows|
      invariant 0 <= i <= |rows| && |records| == i
      invariant forall k :: 0 <= k < i ==> RowOfCells(rows[k], headings, urljoin) == Success(records[k])
    {
      var data, rowErr := ExtractRow(rows[i], headings, urljoin);
      if rowErr.Some? {
        err := rowErr;
        return;
      }
      AppendKeepsRows(rows, headings, urljoin, records, data);
      records := records + [data];
      i := i + 1;
    }
  }

  /** Appending the record of the next row keeps the records of the rows before it. */
  lemma AppendKeepsRows(rows: seq<MainRowCells>, headings: map<string, seq<string>>, urljoin: string -> string,
                        records: seq<RowData>, data: RowData)
    requires |records| < |rows|
    requires forall k :: 0 <= k < |records| ==> RowOfCells(rows[k], headings, urljoin) == Success(records[k])
    requires RowOfCells(rows[|records|], headings, urljoin) == Success(data)
    ensures forall k :: 0 <= k <= |records| ==> RowOfCells(rows[k], headings, urljoin) == Success((records + [data])[k])
  {
    forall k | 0 <= k <= |records| ensures RowOfCells(rows[k], headings, urljoin) == Success((records + [data])[k]) {
      if k < |records| {
        assert (records + [data])[k] == records[k];
      }
    }
  }

  /** The body of the loop for one row: the link is rewritten and resolved, the
      country number looked up, and the record built. */
  method ExtractRow(row: MainRowCells, headings: map<string, seq<string>>, urljoin: string -> string)
    returns (data: RowData, err: Option<FaraError>)
    ensures err.None? ==> RowOfCells(row, headings, urljoin) == Success(data)
    ensures err.Some? ==> RowOfCells(row, headings, urljoin) == Failure(err.value)
  {
    var href := ExtractFirst(row.linkHrefs);
    var url: Option<string>;
    data := RowData(None, None, [], None, None, None, None, None);
    if href.Some? {
      var segments := SplitOn(href.value, ":");
      if |segments| < 3 {
        err := Some(MalformedMarkupError(href.value));
        return;
      }
      var blanked := segments[2 := ""];
      url := Some(urljoin(JoinWith(":", blanked)));
    } else {
      url := None;
    }
    assert DetailUrl(href, urljoin) == Success(url);
    var idResult := CountryNumberId(ExtractFirst(row.nameHeaders));
    if idResult.Failure? {
      err := Some(idResult.error);
      return;
    }
    err := None;
    data := RowData(url, ExtractFirst(row.names), row.addressLines, ExtractFirst(row.states),
                    ExtractFirst(row.registrants), ExtractFirst(row.regNumbers), ExtractFirst(row.regDates),
                    CountryName(headings, idResult.value));
  }

  // ---------------------------------------------------------------------------
  // The record handed to the item loader

  /** The record's fields in the order the row builds them, followed by the exhibit
      url the exhibit page adds. */
  function Entries(row: RowData, exhibitUrl: Option<string>): (r: seq<(string, FieldValue)>)
    ensures |r| == 9
  {
    [("url", Text(row.url)),
     ("foreign_principal", Text(row.foreignPrincipal)),
     ("address", Lines(row.address)),
     ("state", Text(row.state)),
     ("registrant", Text(row.registrant)),
     ("reg_num", Text(row.regNum)),
     ("date", Text(row.date)),
     ("country", Text(row.country)),
     ("exhibit_url", Text(exhibitUrl))]
  }

  /** The record fills each declared field once. */
  lemma EntriesFields(row: RowData, exhibitUrl: Option<string>)
    ensures var r := Entries(row, exhibitUrl);
      forall k :: 0 <= k < |r| ==> r[k].0 in FieldNames
    ensures var r := Entries(row, exhibitUrl);
      forall k, l :: 0 <= k < l < |r| ==> r[k].0 != r[l].0
  {
  }

  /** The fields the item declares. */
  const FieldNames: set<string> :=
    {"url", "foreign_principal", "address", "country", "state", "registrant", "reg_num", "exhibit_url", "date"}
}
