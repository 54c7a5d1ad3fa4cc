/** The spider: it reads the session's form fields and the record total from the
    landing page, builds the body of every page request, and completes each row of
    the listing from its exhibit page into an item. */
module Spider {

  import opened Wrappers
  import opened Text
  import opened FaraExceptions
  import opened Selectors
  import opened Dates
  import opened Items
  import opened Pagination
  import opened ExhibitSelection
  import opened RowExtraction

  // ---------------------------------------------------------------------------
  // Required values

  /** `parse_apex_xpath_element`: exactly one value is required; none (or no selector
      at all) and several are both refused, differently. */
  function ParseApexXpathElement(selector: Selection, fieldId: string): (r: Result<string, FaraError>)
    ensures r.Success? <==> selector.Some? && |selector.value| == 1
    ensures r.Success? ==> r.value == selector.value[0]
    ensures selector.None? || selector.value == [] ==> r == Failure(ApexFieldMissingError(fieldId))
    ensures selector.Some? && |selector.value| > 1 ==> r == Failure(ApexFieldMultipleValuesError(fieldId, selector.value))
  {
    match selector
    case None => Failure(ApexFieldMissingError(fieldId))
    case Some(elements) =>
      if |elements| == 0 then Failure(ApexFieldMissingError(fieldId))
      else if |elements| > 1 then Failure(ApexFieldMultipleValuesError(fieldId, elements))
      else Success(elements[0])
  }

  /** `check_if_selector_empty`: the error it raises, if any. */
  function CheckIfSelectorEmpty(selector: Selection, field: string): (r: Option<FaraError>)
    ensures r.Some? <==> selector.None? || selector.value == []
    ensures r.Some? ==> r.value == SelectorEmptyError(field)
  {
    if selector.None? || selector.value == [] then Some(SelectorEmptyError(field)) else None
  }

  /** A selection that passes the emptiness check has a first value to parse. */
  lemma NonEmptyHasValue(selector: Selection, fieldId: string)
    requires CheckIfSelectorEmpty(selector, fieldId).None?
    ensures ParseApexXpathElement(selector, fieldId).Success?
            || ParseApexXpathElement(selector, fieldId) == Failure(ApexFieldMultipleValuesError(fieldId, selector.value))
  {
  }

  // ---------------------------------------------------------------------------
  // The record total

  /** The record total of the caption `"<range> of <total>"`: exactly one text, and
      exactly one `of` in it once stripped; a total that is not an integer leaves
      None (the spider only reports it). */
  function ParseTotalRecords(texts: seq<string>): (r: Result<Option<int>, FaraError>)
    ensures |texts| != 1 ==> r == Failure(UnexpectedValueError(texts))
    ensures |texts| == 1 && |SplitOn(Strip(texts[0]), "of")| != 2 ==>
      r == Failure(UnexpectedValueError(SplitOn(Strip(texts[0]), "of")))
    ensures |texts| == 1 && |SplitOn(Strip(texts[0]), "of")| == 2 ==> r.Success?
    ensures r.Failure? ==> r.error.UnexpectedValueError?
    ensures r.Success? ==> |texts| == 1
    ensures r.Success? ==> var parts := SplitOn(Strip(texts[0]), "of");
      |parts| == 2 && Strip(texts[0]) == parts[0] + "of" + parts[1] && r.value == ParseInt(Strip(parts[1]))
  {
    if |texts| != 1 then Failure(UnexpectedValueError(texts))
    else
      var parts := SplitOn(Strip(texts[0]), "of");
      if |parts| != 2 then Failure(UnexpectedValueError(parts))
      else
        JoinSplit(Strip(texts[0]), "of");
        assert JoinWith("of", parts) == parts[0] + "of" + parts[1];
        Success(ParseInt(Strip(parts[1])))
  }

  /** No occurrence of `of` can straddle the end of a text and a following `of`. */
  lemma NoStraddle(a: string, b: string)
    requires !Contains(a, "of")
    ensures forall j :: 0 <= j < |a| ==> !OccursAt(a + "of" + b, "of", j)
  {
    var s := a + "of" + b;
    forall j | 0 <= j < |a| ensures !OccursAt(s, "of", j) {
      if j + 1 < |a| {
        assert s[j..j + 2] == a[j..j + 2];
        assert !OccursAt(a, "of", j);
      } else {
        assert s[j + 1] == 'o';
      }
    }
  }

  /** A number as printed in the caption: no blank at either end, and no `o`. */
  predicate PrintedNumber(d: string) {
    d != [] && !IsSpace(d[0]) && !IsSpace(d[|d| - 1]) && forall j :: 0 <= j < |d| ==> d[j] != 'o'
  }

  /** A printed integer is such a number. */
  lemma IntToStringPrinted(n: int)
    ensures PrintedNumber(IntToString(n))
  {
    var d := IntToString(n);
    IntToStringDigits(n);
    if n < 0 {
      var m := NatToString(-n);
      NatToStringDigits(-n);
      assert d == "-" + m;
      forall j | 0 <= j < |d| ensures d[j] != 'o' {
        if j > 0 {
          assert d[j] == m[j - 1];
        }
      }
    }
    NotSpace(d[0]);
    NotSpace(d[|d| - 1]);
  }

  /** A space in front of such a number is stripped away. */
  lemma StripSpacedNumber(d: string)
    requires PrintedNumber(d)
    ensures Strip(" " + d) == d
  {
    StripLeadingSpace(' ', d);
    StripOfStripped(d);
  }

  /** After `of`, the caption holds no `of`. */
  lemma SpacedNumberHasNoOf(d: string)
    requires PrintedNumber(d)
    ensures !Contains(" " + d, "of")
  {
    var tail := " " + d;
    forall j | 0 <= j < |tail| ensures tail[j] != 'o' {
      if j > 0 {
        assert tail[j] == d[j - 1];
      }
    }
    AbsentFirstChar(tail, "of");
  }

  /** Such a caption is already stripped. */
  lemma CaptionIsStripped(range: string, d: string)
    requires range == [] || !IsSpace(range[0])
    requires PrintedNumber(d)
    ensures Strip(range + "of " + d) == range + "of " + d
  {
    var caption := range + "of " + d;
    assert caption[|caption| - 1] == d[|d| - 1];
    if range == [] {
      assert caption[0] == 'o';
    } else {
      assert caption[0] == range[0];
    }
    StripOfStripped(caption);
  }

  /** Such a caption splits on `of` into its range and the spaced number. */
  lemma CaptionSplits(range: string, d: string)
    requires !Contains(range, "of")
    requires PrintedNumber(d)
    ensures SplitOn(range + "of " + d, "of") == [range, " " + d]
  {
    var tail := " " + d;
    assert range + "of " + d == range + "of" + tail;
    SpacedNumberHasNoOf(d);
    NoStraddle(range, tail);
    SplitAroundOnly(range, "of", tail);
  }

  /** A caption ending in a number yields what that number parses to. */
  lemma ParseTotalRecordsOfNumber(range: string, d: string)
    requires !Contains(range, "of")
    requires range == [] || !IsSpace(range[0])
    requires PrintedNumber(d)
    ensures ParseTotalRecords([range + "of " + d]) == Success(ParseInt(d))
  {
    var texts := [range + "of " + d];
    CaptionIsStripped(range, d);
    CaptionSplits(range, d);
    StripSpacedNumber(d);
    assert SplitOn(Strip(texts[0]), "of") == [range, " " + d];
  }

  /** A caption whose range holds no `of` yields the total it ends with. */
  lemma ParseTotalRecordsOfCaption(range: string, total: int)
    requires !Contains(range, "of")
    requires range == [] || !IsSpace(range[0])
    ensures ParseTotalRecords([range + "of " + IntToString(total)]) == Success(Some(total))
  {
    IntToStringPrinted(total);
    ParseTotalRecordsOfNumber(range, IntToString(total));
    ParseIntToString(total);
  }

  // ---------------------------------------------------------------------------
  // The landing page

  /** What the landing page's queries return. */
  datatype LandingPage = LandingPage(
    form: Selection,
    worksheet: Selection,
    flowId: Selection,
    flowStepId: Selection,
    instance: Selection,
    worksheetId: Selection,
    reportId: Selection,
    dataPanel: Selection,
    caption: Selection)

  /** Both containers of the session's form fields are on the page. */
  predicate FormAndWorksheetPresent(page: LandingPage) {
    CheckIfSelectorEmpty(page.form, "wwvFlowForm").None? && CheckIfSelectorEmpty(page.worksheet, "apexir_WORKSHEET").None?
  }

  /** The session's form fields under the names the requests send them by, or the
      first error: the form and the worksheet must exist, and each field must have
      exactly one value. */
  function ApexMetadataOf(page: LandingPage): (r: Result<map<string, string>, FaraError>)
    ensures r.Success? <==>
      && FormAndWorksheetPresent(page)
      && ParseApexXpathElement(page.flowId, "pFlowId").Success?
      && ParseApexXpathElement(page.flowStepId, "pFlowStepId").Success?
      && ParseApexXpathElement(page.instance, "pInstance").Success?
      && ParseApexXpathElement(page.worksheetId, "apexir_WORKSHEET_ID(x0)").Success?
      && ParseApexXpathElement(page.reportId, "apexir_REPORT_ID(x1)").Success?
    ensures CheckIfSelectorEmpty(page.form, "wwvFlowForm").None? && CheckIfSelectorEmpty(page.worksheet, "apexir_WORKSHEET").Some? ==>
      r == Failure(SelectorEmptyError("apexir_WORKSHEET"))
    ensures FormAndWorksheetPresent(page) && ParseApexXpathElement(page.flowId, "pFlowId").Failure? ==>
      r == Failure(ParseApexXpathElement(page.flowId, "pFlowId").error)
    ensures FormAndWorksheetPresent(page) && ParseApexXpathElement(page.flowId, "pFlowId").Success?
            && ParseApexXpathElement(page.flowStepId, "pFlowStepId").Failure? ==>
      r == Failure(ParseApexXpathElement(page.flowStepId, "pFlowStepId").error)
    ensures FormAndWorksheetPresent(page) && ParseApexXpathElement(page.flowId, "pFlowId").Success?
            && ParseApexXpathElement(page.flowStepId, "pFlowStepId").Success?
            && ParseApexXpathElement(page.instance, "pInstance").Failure? ==>
      r == Failure(ParseApexXpathElement(page.instance, "pInstance").error)
    ensures FormAndWorksheetPresent(page) && ParseApexXpathElement(page.flowId, "pFlowId").Success?
            && ParseApexXpathElement(page.flowStepId, "pFlowStepId").Success?
            && ParseApexXpathElement(page.instance, "pInstance").Success?
            && ParseApexXpathElement(page.worksheetId, "apexir_WORKSHEET_ID(x0)").Failure? ==>
      r == Failure(ParseApexXpathElement(page.worksheetId, "apexir_WORKSHEET_ID(x0)").error)
    ensures FormAndWorksheetPresent(page) && ParseApexXpathElement(page.flowId, "pFlowId").Success?
            && ParseApexXpathElement(page.flowStepId, "pFlowStepId").Success?
            && ParseApexXpathElement(page.instance, "pInstance").Success?
            && ParseApexXpathElement(page.worksheetId, "apexir_WORKSHEET_ID(x0)").Success?
            && ParseApexXpathElement(page.reportId, "apexir_REPORT_ID(x1)").Failure? ==>
      r == Failure(ParseApexXpathElement(page.reportId, "apexir_REPORT_ID(x1)").error)
    ensures r.Success? ==> r.value.Keys == {"p_flow_id", "p_flow_step_id", "p_instance", "x01", "x02"}
    ensures r.Success? ==> ParseApexXpathElement(page.flowId, "pFlowId") == Success(r.value["p_flow_id"])
    ensures r.Success? ==> ParseApexXpathElement(page.flowStepId, "pFlowStepId") == Success(r.value["p_flow_step_id"])
    ensures r.Success? ==> ParseApexXpathElement(page.instance, "pInstance") == Success(r.value["p_instance"])
    ensures r.Success? ==> ParseApexXpathElement(page.worksheetId, "apexir_WORKSHEET_ID(x0)") == Success(r.value["x01"])
    ensures r.Success? ==> ParseApexXpathElement(page.reportId, "apexir_REPORT_ID(x1)") == Success(r.value["x02"])
    ensures r.Success? ==> CheckIfSelectorEmpty(page.form, "wwvFlowForm").None?
    ensures r.Success? ==> CheckIfSelectorEmpty(page.worksheet, "apexir_WORKSHEET").None?
    ensures CheckIfSelectorEmpty(page.form, "wwvFlowForm").Some? ==> r == Failure(SelectorEmptyError("wwvFlowForm"))
  {
    if CheckIfSelectorEmpty(page.form, "wwvFlowForm").Some? then Failure(SelectorEmptyError("wwvFlowForm"))
    else if CheckIfSelectorEmpty(page.worksheet, "apexir_WORKSHEET").Some? then Failure(SelectorEmptyError("apexir_WORKSHEET"))
    else
      match ParseApexXpathElement(page.flowId, "pFlowId")
      case Failure(e) => Failure(e)
      case Success(flowId) =>
      match ParseApexXpathElement(page.flowStepId, "pFlowStepId")
      case Failure(e) => Failure(e)
      case Success(flowStepId) =>
      match ParseApexXpathElement(page.instance, "pInstance")
      case Failure(e) => Failure(e)
      case Success(instance) =>
      match ParseApexXpathElement(page.worksheetId, "apexir_WORKSHEET_ID(x0)")
      case Failure(e) => Failure(e)
      case Success(worksheetId) =>
      match ParseApexXpathElement(page.reportId, "apexir_REPORT_ID(x1)")
      case Failure(e) => Failure(e)
      case Success(reportId) =>
        Success(map["p_flow_id" := flowId, "p_flow_step_id" := flowStepId, "p_instance" := instance,
                    "x01" := worksheetId, "x02" := reportId])
  }

  /** The record total the landing page states, None when it is not an integer, or
      the first error: the data panel and the caption must exist. */
  function TotalRecordsOf(page: LandingPage): (r: Result<Option<int>, FaraError>)
    ensures CheckIfSelectorEmpty(page.dataPanel, "apexir_data_panel").Some? ==> r == Failure(SelectorEmptyError("apexir_data_panel"))
    ensures CheckIfSelectorEmpty(page.dataPanel, "apexir_data_panel").None?
            && CheckIfSelectorEmpty(page.caption, "fielddata(total_records_string)").Some? ==>
      r == Failure(SelectorEmptyError("fielddata(total_records_string)"))
    ensures CheckIfSelectorEmpty(page.dataPanel, "apexir_data_panel").None?
            && CheckIfSelectorEmpty(page.caption, "fielddata(total_records_string)").None? ==>
      r == ParseTotalRecords(page.caption.value)
    ensures r.Success? ==> page.caption.Some? && r == ParseTotalRecords(page.caption.value)
  {
    if CheckIfSelectorEmpty(page.dataPanel, "apexir_data_panel").Some? then Failure(SelectorEmptyError("apexir_data_panel"))
    else if CheckIfSelectorEmpty(page.caption, "fielddata(total_records_string)").Some? then
      Failure(SelectorEmptyError("fielddata(total_records_string)"))
    else ParseTotalRecords(page.caption.value)
  }

  /** A selection with exactly one value. */
  predicate SingleValued(selector: Selection) {
    selector.Some? && |selector.value| == 1
  }

  /** A landing page with both containers, one value per form field, a data panel and
      a caption that ends in a number yields the metadata of those values and that
      number as the record total. */
  lemma LandingPageReadsTotal(page: LandingPage, range: string, total: int)
    requires FormAndWorksheetPresent(page)
    requires SingleValued(page.flowId) && SingleValued(page.flowStepId) && SingleValued(page.instance)
    requires SingleValued(page.worksheetId) && SingleValued(page.reportId)
    requires CheckIfSelectorEmpty(page.dataPanel, "apexir_data_panel").None?
    requires page.caption == Some([range + "of " + IntToString(total)])
    requires !Contains(range, "of") && (range == [] || !IsSpace(range[0]))
    ensures ApexMetadataOf(page) == Success(map["p_flow_id" := page.flowId.value[0],
                                                "p_flow_step_id" := page.flowStepId.value[0],
                                                "p_instance" := page.instance.value[0],
                                                "x01" := page.worksheetId.value[0],
                                                "x02" := page.reportId.value[0]])
    ensures TotalRecordsOf(page) == Success(Some(total))
  {
    ParseTotalRecordsOfCaption(range, total);
  }

  /** The session fields never collide with the paging fields. */
  lemma MetadataKeysArePaging(page: LandingPage)
    requires ApexMetadataOf(page).Success?
    ensures ApexMetadataOf(page).value.Keys !! PagingKeys
  {
  }

  /** With the metadata of a landing page, body `i` of the generator keeps every
      session field and asks for the rows of page `i`: from row `1 + i * rowsPerPage`,
      a full page or the rows left. */
  lemma GeneratedBodyContents(page: LandingPage, meta: map<string, string>, totalRows: int, rowsPerPage: int, i: nat)
    requires ApexMetadataOf(page) == Success(meta) && rowsPerPage > 0
    requires i < |Windows(totalRows, rowsPerPage, 1)|
    ensures var p := Payloads(meta, Windows(totalRows, rowsPerPage, 1))[i];
      var count := Min(rowsPerPage, totalRows - i * rowsPerPage);
      && p.Keys == meta.Keys + PagingKeys
      && (forall k :: k in meta ==> p[k] == meta[k])
      && 1 <= count <= rowsPerPage
      && ParseInt(p["p_widget_num_return"]) == Some(count)
      && p["p_widget_action_mod"] == ActionMod(1 + i * rowsPerPage, count, count)
  {
    MetadataKeysArePaging(page);
    WindowBodyContents(meta, totalRows, rowsPerPage, i);
  }

  // ---------------------------------------------------------------------------
  // The spider

  class ForeignPrincipalsSpider {
    /** The session's form fields, once read from the landing page. */
    var apexMetadata: Option<map<string, string>>
    /** The number of records the listing reports. */
    var totalRecords: Option<int>

    constructor ()
      ensures apexMetadata == None && totalRecords == None
    {
      apexMetadata := None;
      totalRecords := None;
    }

    /** `set_metadata_from_initial_page_table`: the form fields are stored as soon as
        they are read, before the record total is looked for; a total that is not an
        integer leaves the previous one. */
    method SetMetadataFromInitialPageTable(page: LandingPage) returns (err: Option<FaraError>)
      modifies this
      ensures ApexMetadataOf(page).Failure? ==>
        err == Some(ApexMetadataOf(page).error) && apexMetadata == old(apexMetadata) && totalRecords == old(totalRecords)
      ensures ApexMetadataOf(page).Success? ==> apexMetadata == Some(ApexMetadataOf(page).value)
      ensures ApexMetadataOf(page).Success? && TotalRecordsOf(page).Failure? ==>
        err == Some(TotalRecordsOf(page).error) && totalRecords == old(totalRecords)
      ensures ApexMetadataOf(page).Success? && TotalRecordsOf(page).Success? ==>
        err == None && totalRecords == (if TotalRecordsOf(page).value.Some? then TotalRecordsOf(page).value else old(totalRecords))
    {
      err := CheckIfSelectorEmpty(page.form, "wwvFlowForm");
      if err.Some? { return; }
      err := CheckIfSelectorEmpty(page.worksheet, "apexir_WORKSHEET");
      if err.Some? { return; }

      var flowId := ParseApexXpathElement(page.flowId, "pFlowId");
      if flowId.Failure? { return Some(flowId.error); }
      var flowStepId := ParseApexXpathElement(page.flowStepId, "pFlowStepId");
      if flowStepId.Failure? { return Some(flowStepId.error); }
      var instance := ParseApexXpathElement(page.instance, "pInstance");
      if instance.Failure? { return Some(instance.error); }
      var worksheetId := ParseApexXpathElement(page.worksheetId, "apexir_WORKSHEET_ID(x0)");
      if worksheetId.Failure? { return Some(worksheetId.error); }
      var reportId := ParseApexXpathElement(page.reportId, "apexir_REPORT_ID(x1)");
      if reportId.Failure? { return Some(reportId.error); }

      apexMetadata := Some(map["p_flow_id" := flowId.value, "p_flow_step_id" := flowStepId.value,
                               "p_instance" := instance.value, "x01" := worksheetId.value,
                               "x02" := reportId.value]);

      err := CheckIfSelectorEmpty(page.dataPanel, "apexir_data_panel");
      if err.Some? { return; }
      err := CheckIfSelectorEmpty(page.caption, "fielddata(total_records_string)");
      if err.Some? { return; }

      var totalRecordsList := page.caption.value;
      if |totalRecordsList| != 1 {
        return Some(UnexpectedValueError(totalRecordsList));
      }
      var parts := SplitOn(Strip(totalRecordsList[0]), "of");
      if |parts| != 2 {
        return Some(UnexpectedValueError(parts));
      }
      var total := ParseInt(Strip(parts[1]));
      if total.Some? {
        totalRecords := total;
      }
    }

    /** `get_next_page_post_body_generator`: one request body per window, in order;
        every body starts as a copy of the session fields. */
    method GetNextPagePostBodyGenerator(totalRows: int, rowsPerPage: int) returns (bodies: seq<map<string, string>>)
      requires totalRows >= 1 ==> rowsPerPage > 0 && apexMetadata.Some?
      ensures |bodies| == |Windows(totalRows, rowsPerPage, 1)|
      ensures apexMetadata.Some? ==> bodies == Payloads(apexMetadata.value, Windows(totalRows, rowsPerPage, 1))
    {
      bodies := [];
      ghost var done: seq<PageWindow> := [];
      var firstRowInPage := 1;
      while firstRowInPage <= totalRows
        invariant firstRowInPage >= 1
        invariant firstRowInPage > totalRows || rowsPerPage > 0
        invariant Windows(totalRows, rowsPerPage, 1) == done + Windows(totalRows, rowsPerPage, firstRowInPage)
        invariant bodies == [] || apexMetadata.Some?
        invariant apexMetadata.Some? ==> bodies == Payloads(apexMetadata.value, done)
        invariant |bodies| == |done|
        decreases totalRows - firstRowInPage + 1
      {
        var count: int;
        if totalRows - firstRowInPage >= rowsPerPage {
          count := rowsPerPage;
        } else {
          count := totalRows - firstRowInPage + 1;
        }
        var postObject := PagePostBody(apexMetadata.value, firstRowInPage, count);
        ghost var before := done;
        done := done + [PageWindow(firstRowInPage, count)];
        PayloadsStep(apexMetadata.value, before, PageWindow(firstRowInPage, count), done, bodies, postObject);
        WindowsStep(totalRows, rowsPerPage, firstRowInPage, count, before, done, firstRowInPage + rowsPerPage);
        firstRowInPage := firstRowInPage + rowsPerPage;
        bodies := bodies + [postObject];
      }
      assert Windows(totalRows, rowsPerPage, firstRowInPage) == [];
      assert done + [] == done;
    }
  }

  /** One request body of the generator: the session's fields with the paging fields
      of the window starting at `firstRowInPage` set on top. */
  method PagePostBody(meta: map<string, string>, firstRowInPage: int, count: int) returns (postObject: map<string, string>)
    ensures postObject == PagePayload(meta, PageWindow(firstRowInPage, count))
  {
    var numReturn := IntToString(count);
    var actionMod := ActionMod(firstRowInPage, count, count);
    postObject := meta;
    postObject := postObject["p_request" := "APXWGT"];
    postObject := postObject["p_widget_name" := "worksheet"];
    postObject := postObject["p_widget_mod" := "ACTION"];
    postObject := postObject["p_widget_action" := "PAGE"];
    postObject := postObject["p_widget_num_return" := numReturn];
    postObject := postObject["p_widget_action_mod" := actionMod];
    assert postObject == PagingFields(meta, numReturn, actionMod);
  }

  // ---------------------------------------------------------------------------
  // The exhibit page

  /** The item the loader builds from a row and its exhibit url, or the error raised
      while the values are added. */
  function LoadedItem(row: RowData, exhibitUrl: Option<string>): (r: Result<map<string, Option<string>>, FaraError>)
    ensures r.Success? ==> r.value.Keys <= FieldNames
  {
    var (values, err) := AddEntries(map[], Entries(row, exhibitUrl));
    AddEntriesKeys(Entries(row, exhibitUrl));
    EntriesFields(row, exhibitUrl);
    if err.Some? then Failure(err.value) else Success(OutputItem(values))
  }

  /** A plain text field of the item: present, and the cleaned text (None when the
      text is missing or blank). */
  predicate TextFieldOf(item: map<string, Option<string>>, field: string, text: Option<string>) {
    field in item && item[field] == StripString(text)
  }

  /** The text fields of the item built from a row, each from its own part of the
      row. */
  predicate TextFieldsOfRow(item: map<string, Option<string>>, row: RowData, exhibitUrl: Option<string>) {
    && TextFieldOf(item, "url", row.url)
    && TextFieldOf(item, "foreign_principal", row.foreignPrincipal)
    && TextFieldOf(item, "state", row.state)
    && TextFieldOf(item, "registrant", row.registrant)
    && TextFieldOf(item, "reg_num", row.regNum)
    && TextFieldOf(item, "country", row.country)
    && TextFieldOf(item, "exhibit_url", exhibitUrl)
  }

  /** The address of the item built from a row: the cleaned join of its lines, absent
      when that join is empty. */
  predicate AddressOfRow(item: map<string, Option<string>>, row: RowData) {
    && ("address" in item <==> JoinWith(", ", row.address) != "")
    && ("address" in item ==> item["address"] == StripString(Some(JoinWith(", ", row.address))))
  }

  /** The date of the item built from a row: the ISO timestamp of the row's date,
      absent when the row has none. */
  predicate DateOfRow(item: map<string, Option<string>>, row: RowData) {
    && ("date" in item <==> row.date.Some?)
    && ("date" in item ==> ParseUsDate(row.date).Success? && item["date"] == Some(IsoTimestamp(ParseUsDate(row.date).value)))
  }

  /** The item built from a row: only declared fields, each as described above. */
  predicate ItemOfRow(item: map<string, Option<string>>, row: RowData, exhibitUrl: Option<string>) {
    item.Keys <= FieldNames && TextFieldsOfRow(item, row, exhibitUrl) && AddressOfRow(item, row) && DateOfRow(item, row)
  }

  /** The input steps of a row's entries: all succeed but the date's, which fails
      exactly when the row's date does not parse. */
  lemma EntriesInputs(row: RowData, exhibitUrl: Option<string>)
    ensures var entries := Entries(row, exhibitUrl);
      forall j :: 0 <= j < |entries| && j != 6 ==> InputValues(entries[j].0, entries[j].1).Success?
    ensures var entries := Entries(row, exhibitUrl);
      entries[6] == ("date", Text(row.date))
  {
    var entries := Entries(row, exhibitUrl);
    forall j | 0 <= j < |entries| && j != 6 ensures InputValues(entries[j].0, entries[j].1).Success? {
      if j != 2 {
        assert entries[j].0 != "address" && entries[j].0 != "date";
      }
    }
  }

  /** A row whose date does not parse fails to load, with the parser's error. */
  lemma LoadedItemFails(row: RowData, exhibitUrl: Option<string>)
    requires row.date.Some? && ParseUsDate(row.date).Failure?
    ensures LoadedItem(row, exhibitUrl) == Failure(ParseUsDate(row.date).error)
  {
    var entries := Entries(row, exhibitUrl);
    EntriesInputs(row, exhibitUrl);
    DateFieldOutput(row.date);
    var init := entries[..6];
    assert forall j :: 0 <= j < |init| ==> init[j] == entries[j];
    AddEntriesIfSucceed(map[], init);
    AddEntriesSnoc(map[], entries, 6);
    AddEntriesStops(map[], entries, 7);
  }

  /** What the loader holds once each of a row's entries has gone through its own
      input step and nothing else was added. */
  predicate RowRecorded(values: map<string, seq<Option<string>>>, row: RowData, exhibitUrl: Option<string>) {
    && Recorded(values, "url", InputValues("url", Text(row.url)).value)
    && Recorded(values, "foreign_principal", InputValues("foreign_principal", Text(row.foreignPrincipal)).value)
    && Recorded(values, "address", InputValues("address", Lines(row.address)).value)
    && Recorded(values, "state", InputValues("state", Text(row.state)).value)
    && Recorded(values, "registrant", InputValues("registrant", Text(row.registrant)).value)
    && Recorded(values, "reg_num", InputValues("reg_num", Text(row.regNum)).value)
    && InputValues("date", Text(row.date)).Success?
    && Recorded(values, "date", InputValues("date", Text(row.date)).value)
    && Recorded(values, "country", InputValues("country", Text(row.country)).value)
    && Recorded(values, "exhibit_url", InputValues("exhibit_url", Text(exhibitUrl)).value)
  }

  /** Text values recorded from a row's own input steps read back cleaned. */
  lemma TextFieldsOfRecorded(values: map<string, seq<Option<string>>>, row: RowData, exhibitUrl: Option<string>)
    requires RowRecorded(values, row, exhibitUrl)
    ensures TextFieldsOfRow(OutputItem(values), row, exhibitUrl)
  {
    TextFieldItem(values, "url", row.url);
    TextFieldItem(values, "foreign_principal", row.foreignPrincipal);
    TextFieldItem(values, "state", row.state);
    TextFieldItem(values, "registrant", row.registrant);
    TextFieldItem(values, "reg_num", row.regNum);
    TextFieldItem(values, "country", row.country);
    TextFieldItem(values, "exhibit_url", exhibitUrl);
  }

  /** The field of entry `j` of a row records what that entry's input step produced. */
  lemma EntryRecorded(row: RowData, exhibitUrl: Option<string>, j: nat, field: string, value: FieldValue)
    requires row.date.None? || ParseUsDate(row.date).Success?
    requires j < 9 && Entries(row, exhibitUrl)[j] == (field, value)
    ensures InputValues(field, value).Success?
    ensures Recorded(AddEntries(map[], Entries(row, exhibitUrl)).0, field, InputValues(field, value).value)
  {
    var entries := Entries(row, exhibitUrl);
    EntriesFields(row, exhibitUrl);
    EntriesInputs(row, exhibitUrl);
    DateFieldOutput(row.date);
    AddEntriesIfSucceed(map[], entries);
    AddEntriesRecordsOne(entries, j);
  }

  /** A row whose date parses adds all its entries, and no undeclared field. */
  lemma RowEntriesAdded(row: RowData, exhibitUrl: Option<string>)
    requires row.date.None? || ParseUsDate(row.date).Success?
    ensures var (values, err) := AddEntries(map[], Entries(row, exhibitUrl));
      && err.None?
      && (forall f :: f in values ==> f in FieldNames)
  {
    var entries := Entries(row, exhibitUrl);
    EntriesFields(row, exhibitUrl);
    EntriesInputs(row, exhibitUrl);
    DateFieldOutput(row.date);
    AddEntriesIfSucceed(map[], entries);
    AddEntriesKeys(entries);
    var values := AddEntries(map[], entries).0;
    forall f | f in values ensures f in FieldNames {
      var j :| 0 <= j < |entries| && entries[j].0 == f;
    }
  }

  /** A row whose date parses leaves each field recorded from its own entry alone. */
  lemma RowEntriesRecorded(row: RowData, exhibitUrl: Option<string>)
    requires row.date.None? || ParseUsDate(row.date).Success?
    ensures RowRecorded(AddEntries(map[], Entries(row, exhibitUrl)).0, row, exhibitUrl)
  {
    var values := AddEntries(map[], Entries(row, exhibitUrl)).0;
    assert Recorded(values, "url", InputValues("url", Text(row.url)).value) by {
      EntryRecorded(row, exhibitUrl, 0, "url", Text(row.url));
    }
    assert Recorded(values, "foreign_principal", InputValues("foreign_principal", Text(row.foreignPrincipal)).value) by {
      EntryRecorded(row, exhibitUrl, 1, "foreign_principal", Text(row.foreignPrincipal));
    }
    assert Recorded(values, "address", InputValues("address", Lines(row.address)).value) by {
      EntryRecorded(row, exhibitUrl, 2, "address", Lines(row.address));
    }
    assert Recorded(values, "state", InputValues("state", Text(row.state)).value) by {
      EntryRecorded(row, exhibitUrl, 3, "state", Text(row.state));
    }
    assert Recorded(values, "registrant", InputValues("registrant", Text(row.registrant)).value) by {
      EntryRecorded(row, exhibitUrl, 4, "registrant", Text(row.registrant));
    }
    assert Recorded(values, "reg_num", InputValues("reg_num", Text(row.regNum)).value) by {
      EntryRecorded(row, exhibitUrl, 5, "reg_num", Text(row.regNum));
    }
    assert InputValues("date", Text(row.date)).Success? && Recorded(values, "date", InputValues("date", Text(row.date)).value) by {
      EntryRecorded(row, exhibitUrl, 6, "date", Text(row.date));
    }
    assert Recorded(values, "country", InputValues("country", Text(row.country)).value) by {
      EntryRecorded(row, exhibitUrl, 7, "country", Text(row.country));
    }
    assert Recorded(values, "exhibit_url", InputValues("exhibit_url", Text(exhibitUrl)).value) by {
      EntryRecorded(row, exhibitUrl, 8, "exhibit_url", Text(exhibitUrl));
    }
  }

  /** Any other row loads, and every field is as `ItemOfRow` describes. */
  lemma LoadedItemFields(row: RowData, exhibitUrl: Option<string>)
    requires row.date.None? || ParseUsDate(row.date).Success?
    ensures LoadedItem(row, exhibitUrl).Success?
    ensures ItemOfRow(LoadedItem(row, exhibitUrl).value, row, exhibitUrl)
  {
    RowEntriesAdded(row, exhibitUrl);
    RowEntriesRecorded(row, exhibitUrl);
    ItemOfValues(AddEntries(map[], Entries(row, exhibitUrl)).0, row, exhibitUrl);
  }

  /** Values recorded entry by entry from a row make up the item `ItemOfRow`
      describes. */
  lemma ItemOfValues(values: map<string, seq<Option<string>>>, row: RowData, exhibitUrl: Option<string>)
    requires row.date.None? || ParseUsDate(row.date).Success?
    requires forall f :: f in values ==> f in FieldNames
    requires RowRecorded(values, row, exhibitUrl)
    ensures ItemOfRow(OutputItem(values), row, exhibitUrl)
  {
    TextFieldsOfRecorded(values, row, exhibitUrl);
    AddressFieldItem(values, row.address);
    DateFieldItem(values, row.date);
  }

  /** The item the exhibit page yields for a row of the listing, or the error raised
      on the way: the exhibit url is found, then the loader builds the item. */
  function ExhibitPageItem(row: RowData, rows: seq<ExhibitRowCells>, docLinkHrefs: seq<string>, ratio: Ratio)
    : Result<map<string, Option<string>>, FaraError>
  {
    match ExhibitUrl(rows, docLinkHrefs, row.foreignPrincipal, ratio)
    case Failure(e) => Failure(e)
    case Success(exhibitUrl) => LoadedItem(row, exhibitUrl)
  }

  /** `extract_data_from_exhibit_url_page`. */
  method ExtractDataFromExhibitUrlPage(row: RowData, rows: seq<ExhibitRowCells>, docLinkHrefs: seq<string>, ratio: Ratio)
    returns (r: Result<map<string, Option<string>>, FaraError>)
    ensures r == ExhibitPageItem(row, rows, docLinkHrefs, ratio)
  {
    var exhibitUrl := ExhibitUrlOfPage(rows, docLinkHrefs, row.foreignPrincipal, ratio);
    if exhibitUrl.Failure? {
      return Failure(exhibitUrl.error);
    }
    var entries := Entries(row, exhibitUrl.value);
    var loader := new FaraForeignPrincipalItemLoader();
    var err := loader.AddValue(entries);
    assert (loader.values, err) == AddEntries(map[], entries);
    if err.Some? {
      return Failure(err.value);
    }
    var item := loader.LoadItem();
    assert item == map[] + OutputItem(loader.values);
    assert map[] + OutputItem(loader.values) == OutputItem(loader.values);
    r := Success(item);
  }
}
