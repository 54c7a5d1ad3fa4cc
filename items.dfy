/** The record the crawler emits and the per-field rules that clean it: the text
    cleanup `strip_string`, the `IdentityOrNone` input step, the address join, the
    date conversion, and the item loader that applies them field by field. */
module Items {

  import opened Wrappers
  import opened Text
  import opened Dates
  import opened FaraExceptions

  /** The non-breaking space character. */
  const Nbsp: char := '\U{a0}'

  /** The six characters ` ` as they appear when an escape was not decoded. */
  const EscapedNbsp: string := "\\u00a0"

  // ---------------------------------------------------------------------------
  // strip_string

  /** Both spellings of the non-breaking space turned into plain spaces: the
      escaped spelling first, then the character itself. */
  function Despace(s: string): string {
    ReplaceAll(ReplaceAll(s, EscapedNbsp, " "), [Nbsp], " ")
  }

  /** After the replacements neither spelling of the non-breaking space is left. */
  lemma DespaceClean(s: string)
    ensures !Contains(Despace(s), EscapedNbsp) && !Contains(Despace(s), [Nbsp])
  {
    var a := ReplaceAll(s, EscapedNbsp, " ");
    assert CleanReplacement(EscapedNbsp, " ");
    ReplaceRemovesPattern(s, EscapedNbsp, " ");
    ReplaceCharKeepsAbsence(a, Nbsp, ' ', EscapedNbsp);
    assert CleanReplacement([Nbsp], " ");
    ReplaceRemovesPattern(a, [Nbsp], " ");
  }

  /** A text already free of both spellings is left as it is. */
  lemma DespaceOfClean(s: string)
    requires !Contains(s, EscapedNbsp)
    requires forall i :: 0 <= i < |s| ==> s[i] != Nbsp
    ensures Despace(s) == s
  {
    ReplaceAbsent(s, EscapedNbsp, " ");
    AbsentFirstChar(s, [Nbsp]);
    ReplaceAbsent(s, [Nbsp], " ");
  }

  /** The whitespace of a text is the whitespace of its replaced form, position for
      position: the non-breaking space is whitespace to `strip()` either way. */
  lemma DespaceKeepsSpaces(s: string)
    ensures var a := ReplaceAll(s, EscapedNbsp, " ");
      |Despace(s)| == |a| && forall i :: 0 <= i < |a| ==> (IsSpace(a[i]) <==> IsSpace(Despace(s)[i]))
  {
    var a := ReplaceAll(s, EscapedNbsp, " ");
    ReplaceCharAt(a, Nbsp, ' ');
  }

  /** `strip_string`: both spellings of the non-breaking space become plain spaces,
      whitespace is trimmed, and a value that is left empty becomes None. */
  function StripString(field: Option<string>): (r: Option<string>)
    ensures field.None? ==> r.None?
    ensures r.Some? ==> r.value != ""
  {
    match field
    case None => None
    case Some(s) =>
      var stripped := Strip(Despace(s));
      if stripped == "" then None else Some(stripped)
  }

  /** A cleaned value has no non-breaking space in either spelling and no whitespace
      at either end. */
  lemma StripStringClean(field: Option<string>)
    requires StripString(field).Some?
    ensures var v := StripString(field).value;
      && !Contains(v, EscapedNbsp)
      && (forall i :: 0 <= i < |v| ==> v[i] != Nbsp)
      && !IsSpace(v[0]) && !IsSpace(v[|v| - 1])
  {
    var b := Despace(field.value);
    DespaceClean(field.value);
    StripKeepsAbsence(b, EscapedNbsp);
    StripKeepsAbsence(b, [Nbsp]);
    AbsentChar(Strip(b), Nbsp);
  }

  /** A non-empty text that the replacements and the trimming leave alone cleans to
      itself. */
  lemma StripStringOfFixed(s: string)
    requires s != [] && Despace(s) == s && Strip(s) == s
    ensures StripString(Some(s)) == Some(s)
  {
  }

  /** `strip_string` is idempotent. */
  lemma StripStringIdempotent(field: Option<string>)
    ensures StripString(StripString(field)) == StripString(field)
  {
    if StripString(field).Some? {
      var v := StripString(field).value;
      StripStringClean(field);
      DespaceOfClean(v);
      StripOfStripped(v);
      StripStringOfFixed(v);
    }
  }

  /** A value made only of whitespace once the escaped spelling is replaced (the
      non-breaking space counts as whitespace) cleans to None, and only such a value
      does. */
  lemma StripStringBlank(s: string)
    ensures StripString(Some(s)).None?
        <==> forall i :: 0 <= i < |ReplaceAll(s, EscapedNbsp, " ")| ==> IsSpace(ReplaceAll(s, EscapedNbsp, " ")[i])
  {
    DespaceKeepsSpaces(s);
    StripEmpty(Despace(s));
  }

  // ---------------------------------------------------------------------------
  // Input and output processors

  /** A field value as the spider supplies it: a single (possibly missing) text, or
      a list of lines. */
  datatype FieldValue = Text(text: Option<string>) | Lines(lines: seq<string>)

  /** The framework's `arg_to_iter`: None is no value, a text is one value, a list is
      its elements. */
  function ArgToIter(v: FieldValue): seq<string>
  {
    match v
    case Text(None) => []
    case Text(Some(s)) => [s]
    case Lines(ls) => ls
  }

  /** The values as the framework hands them to an input step. */
  function Present(values: seq<string>): seq<Option<string>>
  {
    if values == [] then [] else [Some(values[0])] + Present(values[1..])
  }

  /** `IdentityOrNone`, the default input step: values pass unchanged, and no value
      at all becomes a single None so that the field is still recorded. */
  function IdentityOrNone(values: seq<Option<string>>): (r: seq<Option<string>>)
    ensures |r| > 0
    ensures values != [] ==> r == values
    ensures values == [] ==> r == [None]
  {
    if |values| > 0 then values else [None]
  }

  /** The date input step: each value converted from `MM/DD/YYYY` to its ISO-8601
      timestamp; the first value that does not parse raises. */
  function ConvertDates(values: seq<string>): (r: Result<seq<Option<string>>, FaraError>)
    ensures r.Success? ==> |r.value| == |values|
    ensures r.Failure? ==> r.error.DateParseError?
    decreases |values|
  {
    if values == [] then Success([])
    else
      match ParseUsDate(Some(values[0]))
      case Failure(e) => Failure(e)
      case Success(d) =>
        match ConvertDates(values[1..])
        case Failure(e) => Failure(e)
        case Success(rest) => Success([Some(IsoTimestamp(d))] + rest)
  }

  /** A conversion that succeeds converts every value, in order. */
  lemma {:induction false} ConvertDatesConverts(values: seq<string>)
    requires ConvertDates(values).Success?
    ensures |ConvertDates(values).value| == |values|
    ensures forall i :: 0 <= i < |values| ==>
      ParseUsDate(Some(values[i])).Success? && ConvertDates(values).value[i] == Some(IsoTimestamp(ParseUsDate(Some(values[i])).value))
  {
    if values != [] {
      ConvertDatesConverts(values[1..]);
      var r := ConvertDates(values).value;
      var rest := ConvertDates(values[1..]).value;
      assert r == [Some(IsoTimestamp(ParseUsDate(Some(values[0])).value))] + rest;
      forall i | 0 <= i < |values|
        ensures ParseUsDate(Some(values[i])).Success? && r[i] == Some(IsoTimestamp(ParseUsDate(Some(values[i])).value))
      {
        if i > 0 {
          assert values[i] == values[1..][i - 1] && r[i] == rest[i - 1];
        }
      }
    }
  }

  /** A conversion that fails raises the error of a value that does not parse. */
  lemma {:induction false} ConvertDatesFails(values: seq<string>)
    requires ConvertDates(values).Failure?
    ensures exists i :: 0 <= i < |values| && ParseUsDate(Some(values[i])).Failure?
                        && ConvertDates(values).error == ParseUsDate(Some(values[i])).error
  {
    if ParseUsDate(Some(values[0])).Failure? {
      assert ParseUsDate(Some(values[0])).error == ConvertDates(values).error;
    } else {
      ConvertDatesFails(values[1..]);
      var i :| 0 <= i < |values[1..]| && ParseUsDate(Some(values[1..][i])).Failure?
               && ConvertDates(values[1..]).error == ParseUsDate(Some(values[1..][i])).error;
      assert values[i + 1] == values[1..][i];
    }
  }

  /** What one field's input step records: the values to add (none when the step
      produced nothing the framework keeps), or the error it raised. */
  function InputValues(field: string, v: FieldValue): (r: Result<seq<Option<string>>, FaraError>)
    ensures field != "address" && field != "date" ==> r.Success? && |r.value| > 0
    ensures field == "address" ==> r.Success? && |r.value| <= 1
  {
    var values := ArgToIter(v);
    if field == "address" then
      var joined := JoinWith(", ", values);
      Success(if joined == "" then [] else [Some(joined)])
    else if field == "date" then ConvertDates(values)
    else Success(IdentityOrNone(Present(values)))
  }

  /** `TakeFirst`: the first value that is neither None nor empty. */
  function TakeFirst(values: seq<Option<string>>): (r: Option<string>)
    ensures r.Some? ==> r.value != "" && exists i :: 0 <= i < |values| && values[i] == r
    ensures r.Some? ==> forall i :: 0 <= i < |values| && values[i] != r ==> values[i] == None || values[i] == Some("") || r in values[..i]
    ensures r.None? <==> forall i :: 0 <= i < |values| ==> values[i] == None || values[i] == Some("")
  {
    if values == [] then None
    else if values[0].Some? && values[0].value != "" then values[0]
    else TakeFirst(values[1..])
  }

  /** The output step: the date field takes its first value as it is; every other
      field takes its first value and cleans it with `strip_string`. */
  function OutputValue(field: string, values: seq<Option<string>>): (r: Option<string>)
    ensures r.Some? ==> r.value != ""
    ensures TakeFirst(values).None? ==> r.None?
  {
    if field == "date" then TakeFirst(values) else StripString(TakeFirst(values))
  }

  /** Every output value but the date's is clean: no non-breaking space and no blank
      at either end. */
  lemma OutputValueClean(field: string, values: seq<Option<string>>)
    requires field != "date" && OutputValue(field, values).Some?
    ensures var v := OutputValue(field, values).value;
      && !Contains(v, EscapedNbsp)
      && (forall i :: 0 <= i < |v| ==> v[i] != Nbsp)
      && !IsSpace(v[0]) && !IsSpace(v[|v| - 1])
  {
    StripStringClean(TakeFirst(values));
  }

  /** Appends processed values to a field's collected values; nothing is recorded for
      an empty result. */
  function AddProcessed(values: map<string, seq<Option<string>>>, field: string, processed: seq<Option<string>>)
    : (r: map<string, seq<Option<string>>>)
    ensures processed == [] ==> r == values
    ensures processed != [] ==> r.Keys == values.Keys + {field}
    ensures processed != [] ==> r[field] == (if field in values then values[field] else []) + processed
    ensures forall f :: f in values && f != field ==> r[f] == values[f]
  {
    if processed == [] then values
    else values[field := (if field in values then values[field] else []) + processed]
  }

  /** The collected values after adding `entries` one after the other, and the error
      that stopped it, if any: entries after a failing one are not processed. */
  function AddEntries(values: map<string, seq<Option<string>>>, entries: seq<(string, FieldValue)>)
    : (map<string, seq<Option<string>>>, Option<FaraError>)
    decreases |entries|
  {
    if entries == [] then (values, None)
    else
      var (collected, err) := AddEntries(values, entries[..|entries| - 1]);
      if err.Some? then (collected, err)
      else
        var (field, value) := entries[|entries| - 1];
        match InputValues(field, value)
        case Failure(e) => (collected, Some(e))
        case Success(processed) => (AddProcessed(collected, field, processed), None)
  }

  /** The item built from collected values: one entry per field that has any. */
  function OutputItem(values: map<string, seq<Option<string>>>): (item: map<string, Option<string>>)
    ensures item.Keys == values.Keys
    ensures forall f :: f in values ==> item[f] == OutputValue(f, values[f])
  {
    map f | f in values :: OutputValue(f, values[f])
  }

  // ---------------------------------------------------------------------------
  // The item loader

  /** The item loader: values collected per field, and the item being filled. */
  class FaraForeignPrincipalItemLoader {
    var values: map<string, seq<Option<string>>>
    var item: map<string, Option<string>>

    constructor ()
      ensures values == map[] && item == map[]
    {
      values := map[];
      item := map[];
    }

    /** `add_value(None, record)`: runs each field's input step in order and appends
        what it yields to that field's values. */
    method AddValue(entries: seq<(string, FieldValue)>) returns (err: Option<FaraError>)
      modifies this
      ensures (values, err) == AddEntries(old(values), entries)
      ensures item == old(item)
    {
      ghost var start := values;
      err := None;
      var i := 0;
      while i < |entries|
        invariant 0 <= i <= |entries|
        invariant AddEntries(start, entries[..i]) == (values, None)
        invariant item == old(item)
      {
        var (field, value) := entries[i];
        AddEntriesSnoc(start, entries, i);
        var processed := InputValues(field, value);
        if processed.Failure? {
          err := Some(processed.error);
          AddEntriesStops(start, entries, i + 1);
          return;
        }
        values := AddProcessed(values, field, processed.value);
        i := i + 1;
      }
      assert entries[..i] == entries;
    }

    /** `load_item`: every field with collected values gets its output value. */
    method LoadItem() returns (loaded: map<string, Option<string>>)
      modifies this
      ensures values == old(values)
      ensures item == old(item) + OutputItem(values)
      ensures loaded == item
    {
      var pending := values.Keys;
      assert values.Keys - pending == {};
      while pending != {}
        invariant pending <= values.Keys
        invariant values == old(values)
        invariant item == old(item) + OutputsOn(values, values.Keys - pending)
        decreases pending
      {
        var f :| f in pending;
        var done := values.Keys - pending;
        OutputsOnAdd(old(item), values, done, f);
        item := item[f := OutputValue(f, values[f])];
        pending := pending - {f};
        assert values.Keys - pending == done + {f};
      }
      assert values.Keys - pending == values.Keys;
      loaded := item;
    }
  }

  /** The output values of the fields in `keys`. */
  function OutputsOn(values: map<string, seq<Option<string>>>, keys: set<string>): (item: map<string, Option<string>>)
    requires keys <= values.Keys
    ensures item.Keys == keys
  {
    map f | f in keys :: OutputValue(f, values[f])
  }

  /** Proof step for `load_item`: setting one more field's output value on top of an
      item. */
  lemma OutputsOnAdd(base: map<string, Option<string>>, values: map<string, seq<Option<string>>>,
                     keys: set<string>, f: string)
    requires keys <= values.Keys && f in values && f !in keys
    ensures (base + OutputsOn(values, keys))[f := OutputValue(f, values[f])] == base + OutputsOn(values, keys + {f})
  {
  }

  /** The effect of one more entry after entries that raised nothing. */
  lemma AddEntriesSnoc(values: map<string, seq<Option<string>>>, entries: seq<(string, FieldValue)>, i: nat)
    requires i < |entries|
    requires AddEntries(values, entries[..i]).1.None?
    ensures var collected := AddEntries(values, entries[..i]).0;
      AddEntries(values, entries[..i + 1])
        == match InputValues(entries[i].0, entries[i].1)
           case Failure(e) => (collected, Some(e))
           case Success(processed) => (AddProcessed(collected, entries[i].0, processed), None)
  {
    assert entries[..i + 1][..i] == entries[..i];
  }

  /** Once an entry fails, later entries change nothing. */
  lemma {:induction false} AddEntriesStops(values: map<string, seq<Option<string>>>,
                                          entries: seq<(string, FieldValue)>, n: nat)
    requires 0 < n <= |entries|
    requires AddEntries(values, entries[..n]).1.Some?
    ensures AddEntries(values, entries) == AddEntries(values, entries[..n])
    decreases |entries| - n
  {
    if n < |entries| {
      assert entries[..n + 1][..n] == entries[..n];
      AddEntriesStops(values, entries, n + 1);
    } else {
      assert entries[..n] == entries;
    }
  }

  /** Entries that raised nothing all passed their input step. */
  lemma {:induction false} AddEntriesOnlyIfSucceed(values: map<string, seq<Option<string>>>,
                                                  entries: seq<(string, FieldValue)>)
    requires AddEntries(values, entries).1.None?
    ensures forall j :: 0 <= j < |entries| ==> InputValues(entries[j].0, entries[j].1).Success?
    decreases |entries|
  {
    if entries != [] {
      var n := |entries|;
      var init := entries[..n - 1];
      var last := entries[n - 1];
      assert AddEntries(values, init).1.None? && InputValues(last.0, last.1).Success?;
      AddEntriesOnlyIfSucceed(values, init);
      forall j | 0 <= j < n ensures InputValues(entries[j].0, entries[j].1).Success? {
        if j < n - 1 {
          assert entries[j] == init[j];
        }
      }
    }
  }

  /** Entries that all pass their input step raise nothing. */
  lemma {:induction false} AddEntriesIfSucceed(values: map<string, seq<Option<string>>>,
                                              entries: seq<(string, FieldValue)>)
    requires forall j :: 0 <= j < |entries| ==> InputValues(entries[j].0, entries[j].1).Success?
    ensures AddEntries(values, entries).1.None?
    decreases |entries|
  {
    if entries != [] {
      var n := |entries|;
      var init := entries[..n - 1];
      assert forall j :: 0 <= j < |init| ==> init[j] == entries[j];
      AddEntriesIfSucceed(values, init);
    }
  }

  /** What a field's collected values are after its input step produced `processed`:
      nothing is recorded for an empty result. */
  predicate Recorded(values: map<string, seq<Option<string>>>, field: string, processed: seq<Option<string>>) {
    if processed == [] then field !in values else field in values && values[field] == processed
  }

  /** Every field with collected values has an entry. */
  lemma {:induction false} AddEntriesKeys(entries: seq<(string, FieldValue)>)
    ensures forall f :: f in AddEntries(map[], entries).0 ==> exists j :: 0 <= j < |entries| && entries[j].0 == f
    decreases |entries|
  {
    if entries != [] {
      var n := |entries|;
      var init := entries[..n - 1];
      AddEntriesKeys(init);
      forall f | f in AddEntries(map[], entries).0 ensures exists j :: 0 <= j < n && entries[j].0 == f {
        if f != entries[n - 1].0 {
          assert f in AddEntries(map[], init).0;
          var j :| 0 <= j < |init| && init[j].0 == f;
          assert entries[j] == init[j];
        }
      }
    }
  }

  /** A field other than the one just added keeps what it had recorded. */
  lemma RecordedKept(collected: map<string, seq<Option<string>>>, field: string, processed: seq<Option<string>>,
                     f: string, p: seq<Option<string>>)
    requires f != field && Recorded(collected, f, p)
    ensures Recorded(AddProcessed(collected, field, processed), f, p)
  {
  }

  /** A field seen for the first time records exactly what its input step produced. */
  lemma RecordedNew(collected: map<string, seq<Option<string>>>, field: string, processed: seq<Option<string>>)
    requires field !in collected
    ensures Recorded(AddProcessed(collected, field, processed), field, processed)
  {
  }

  /** From no values, entries for distinct fields that raise nothing leave the field
      of entry `j` with exactly what its own input step produced. */
  lemma {:induction false} AddEntriesRecordsOne(entries: seq<(string, FieldValue)>, j: nat)
    requires j < |entries|
    requires forall k, l :: 0 <= k < l < |entries| ==> entries[k].0 != entries[l].0
    requires AddEntries(map[], entries).1.None?
    ensures InputValues(entries[j].0, entries[j].1).Success?
    ensures Recorded(AddEntries(map[], entries).0, entries[j].0, InputValues(entries[j].0, entries[j].1).value)
    decreases |entries|
  {
    var n := |entries|;
    var init := entries[..n - 1];
    var collected := AddEntries(map[], init).0;
    var (field, value) := entries[n - 1];
    assert AddEntries(map[], init).1.None? && InputValues(field, value).Success?;
    var processed := InputValues(field, value).value;
    assert AddEntries(map[], entries).0 == AddProcessed(collected, field, processed);
    if j == n - 1 {
      AddEntriesKeys(init);
      assert field !in collected by {
        forall k | 0 <= k < |init| ensures init[k].0 != field {
          assert init[k] == entries[k];
        }
      }
      RecordedNew(collected, field, processed);
    } else {
      assert forall k :: 0 <= k < |init| ==> init[k] == entries[k];
      AddEntriesRecordsOne(init, j);
      RecordedKept(collected, field, processed, entries[j].0, InputValues(entries[j].0, entries[j].1).value);
    }
  }

  /** From no values, entries for distinct fields that raise nothing leave each field
      with exactly what its own input step produced. */
  lemma AddEntriesDistinct(entries: seq<(string, FieldValue)>)
    requires forall k, l :: 0 <= k < l < |entries| ==> entries[k].0 != entries[l].0
    requires AddEntries(map[], entries).1.None?
    ensures forall j :: 0 <= j < |entries| ==>
      InputValues(entries[j].0, entries[j].1).Success?
      && Recorded(AddEntries(map[], entries).0, entries[j].0, InputValues(entries[j].0, entries[j].1).value)
  {
    forall j | 0 <= j < |entries|
      ensures InputValues(entries[j].0, entries[j].1).Success?
      ensures Recorded(AddEntries(map[], entries).0, entries[j].0, InputValues(entries[j].0, entries[j].1).value)
    {
      AddEntriesRecordsOne(entries, j);
    }
  }

  // ---------------------------------------------------------------------------
  // One field, from input to output

  /** A plain text field is always recorded, a missing one as None, and comes out
      cleaned by `strip_string`. */
  lemma TextFieldOutput(field: string, text: Option<string>)
    requires field != "address" && field != "date"
    ensures InputValues(field, Text(text)).Success?
    ensures InputValues(field, Text(text)).value != []
    ensures OutputValue(field, InputValues(field, Text(text)).value) == StripString(text)
  {
    var p := InputValues(field, Text(text)).value;
    if text.Some? {
      var v := text.value;
      assert [v][1..] == [] && [Some(v)] + [] == [Some(v)];
      assert Present([v]) == [Some(v)];
      assert p == [Some(v)];
      if text.value == "" {
        assert Strip("") == "";
      }
    } else {
      assert p == [None];
    }
  }

  /** The address lines are joined with `", "` and the joined text is cleaned; nothing
      is recorded when the join is empty. */
  lemma AddressFieldOutput(lines: seq<string>)
    ensures InputValues("address", Lines(lines)).Success?
    ensures InputValues("address", Lines(lines)).value == [] <==> JoinWith(", ", lines) == ""
    ensures InputValues("address", Lines(lines)).value != [] ==>
      OutputValue("address", InputValues("address", Lines(lines)).value) == StripString(Some(JoinWith(", ", lines)))
  {
  }

  /** A date is converted to its ISO timestamp and taken as it is; a missing date
      records nothing, and one that does not parse raises the parser's error. */
  lemma DateFieldOutput(text: Option<string>)
    ensures text.None? ==> InputValues("date", Text(text)) == Success([])
    ensures text.Some? && ParseUsDate(text).Failure? ==> InputValues("date", Text(text)) == Failure(ParseUsDate(text).error)
    ensures text.Some? && ParseUsDate(text).Success? ==>
      && InputValues("date", Text(text)).Success?
      && InputValues("date", Text(text)).value != []
      && OutputValue("date", InputValues("date", Text(text)).value) == Some(IsoTimestamp(ParseUsDate(text).value))
  {
    if text.Some? {
      var v := text.value;
      assert ArgToIter(Text(text)) == [v];
      assert [v][1..] == [] && [v][0] == v;
      assert ConvertDates([v][1..]) == Success([]);
      if ParseUsDate(text).Success? {
        var iso := IsoTimestamp(ParseUsDate(text).value);
        assert text == Some(v);
        assert [Some(iso)] + [] == [Some(iso)];
        assert ConvertDates([v]) == Success([Some(iso)]);
        assert iso != "";
      }
    }
  }

  /** A text field recorded from its own input step reads back cleaned. */
  lemma TextFieldItem(values: map<string, seq<Option<string>>>, field: string, text: Option<string>)
    requires field != "address" && field != "date"
    requires Recorded(values, field, InputValues(field, Text(text)).value)
    ensures field in OutputItem(values) && OutputItem(values)[field] == StripString(text)
  {
    TextFieldOutput(field, text);
  }

  /** The address recorded from its own input step reads back as the cleaned join. */
  lemma AddressFieldItem(values: map<string, seq<Option<string>>>, lines: seq<string>)
    requires Recorded(values, "address", InputValues("address", Lines(lines)).value)
    ensures "address" in OutputItem(values) <==> JoinWith(", ", lines) != ""
    ensures "address" in OutputItem(values) ==>
      OutputItem(values)["address"] == StripString(Some(JoinWith(", ", lines)))
  {
    AddressFieldOutput(lines);
  }

  /** The date recorded from its own input step reads back as its ISO timestamp. */
  lemma DateFieldItem(values: map<string, seq<Option<string>>>, text: Option<string>)
    requires text.None? || ParseUsDate(text).Success?
    requires InputValues("date", Text(text)).Success?
    requires Recorded(values, "date", InputValues("date", Text(text)).value)
    ensures "date" in OutputItem(values) <==> text.Some?
    ensures "date" in OutputItem(values) ==>
      ParseUsDate(text).Success? && OutputItem(values)["date"] == Some(IsoTimestamp(ParseUsDate(text).value))
  {
    DateFieldOutput(text);
  }
}
