/** Choosing the exhibit document of a foreign principal when its exhibit page lists
    several: every row with a link is scored by how well its name matches the
    principal's, sorted by date and then by score, both descending, and the head of
    the result wins. */
module ExhibitSelection {

  import opened Wrappers
  import opened Dates
  import opened FaraExceptions
  import opened StableSort
  import opened Selectors

  /** One row of an exhibit page: the first text of each of its three cells. */
  datatype ExhibitRow = ExhibitRow(date: Option<string>, foreignPrincipal: Option<string>, url: Option<string>)

  /** A row that has a link, with its score and its parsed date. */
  datatype Candidate = Candidate(url: string, date: Date, score: real)

  /** The string-match ratio of a row's name against the principal's name. */
  type Ratio = (string, string) -> real

  /** The rows that have a link, in page order. */
  function WithUrl(rows: seq<ExhibitRow>): (r: seq<ExhibitRow>)
    ensures |r| <= |rows|
    ensures forall i :: 0 <= i < |r| ==> r[i].url.Some? && r[i] in rows
    ensures (forall i :: 0 <= i < |rows| ==> rows[i].url.Some?) ==> r == rows
    decreases |rows|
  {
    if rows == [] then []
    else
      var last := rows[|rows| - 1];
      assert rows == rows[..|rows| - 1] + [last];
      WithUrl(rows[..|rows| - 1]) + (if last.url.Some? then [last] else [])
  }

  /** Every row with a link is kept. */
  lemma {:induction false} WithUrlKeepsEach(rows: seq<ExhibitRow>)
    ensures forall i :: 0 <= i < |rows| && rows[i].url.Some? ==> rows[i] in WithUrl(rows)
    decreases |rows|
  {
    if rows != [] {
      var init := rows[..|rows| - 1];
      var last := rows[|rows| - 1];
      WithUrlKeepsEach(init);
      var kept := WithUrl(init);
      assert WithUrl(rows) == kept + (if last.url.Some? then [last] else []);
      forall i | 0 <= i < |rows| && rows[i].url.Some? ensures rows[i] in WithUrl(rows) {
        if i < |init| {
          assert rows[i] == init[i];
          assert rows[i] in kept;
        }
      }
    }
  }

  /** Every row with a link is kept, so that nothing is kept exactly when no row
      has a link; a single row is kept exactly when it has one. */
  lemma WithUrlKeepsLinked(rows: seq<ExhibitRow>)
    ensures forall i :: 0 <= i < |rows| && rows[i].url.Some? ==> rows[i] in WithUrl(rows)
    ensures WithUrl(rows) == [] <==> forall i :: 0 <= i < |rows| ==> rows[i].url.None?
    ensures |rows| == 1 ==> WithUrl(rows) == if rows[0].url.Some? then rows else []
  {
    WithUrlKeepsEach(rows);
    if |rows| == 1 {
      assert rows[..0] == [];
    }
  }

  /** Filtering a concatenation filters each part, in order. */
  lemma {:induction false} WithUrlAppend(a: seq<ExhibitRow>, b: seq<ExhibitRow>)
    ensures WithUrl(a + b) == WithUrl(a) + WithUrl(b)
    decreases |b|
  {
    if b == [] {
      assert a + b == a;
    } else {
      var init := b[..|b| - 1];
      assert (a + b)[..|a + b| - 1] == a + init;
      assert (a + b)[|a + b| - 1] == b[|b| - 1];
      WithUrlAppend(a, init);
    }
  }

  /** The scored candidate for a row with a link; the matcher, which runs first,
      fails on a missing name, and the date library on a date it cannot read. */
  function Score(row: ExhibitRow, principal: Option<string>, ratio: Ratio): (r: Result<Candidate, FaraError>)
    requires row.url.Some?
    ensures r.Success? <==> row.foreignPrincipal.Some? && principal.Some? && ParseUsDate(row.date).Success?
    ensures r.Success? ==> r.value.url == row.url.value && r.value.date == ParseUsDate(row.date).value
                           && r.value.score == ratio(row.foreignPrincipal.value, principal.value)
    ensures row.foreignPrincipal.None? || principal.None? ==>
      r == Failure(StringMatchError(row.foreignPrincipal, principal))
    ensures row.foreignPrincipal.Some? && principal.Some? && r.Failure? ==> r.error == DateParseError(row.date)
  {
    if row.foreignPrincipal.None? || principal.None? then Failure(StringMatchError(row.foreignPrincipal, principal))
    else
      match ParseUsDate(row.date)
      case Failure(e) => Failure(e)
      case Success(d) => Success(Candidate(row.url.value, d, ratio(row.foreignPrincipal.value, principal.value)))
  }

  /** The candidates of a page in page order, or the error of the first row with a
      link that cannot be scored. */
  function Candidates(rows: seq<ExhibitRow>, principal: Option<string>, ratio: Ratio)
    : (r: Result<seq<Candidate>, FaraError>)
    ensures r.Success? ==> |r.value| == |WithUrl(rows)| && forall i :: 0 <= i < |r.value| ==>
      Score(WithUrl(rows)[i], principal, ratio) == Success(r.value[i])
    ensures r.Failure? ==>
      exists i :: 0 <= i < |WithUrl(rows)| && Score(WithUrl(rows)[i], principal, ratio) == Failure(r.error)
        && forall j :: 0 <= j < i ==> Score(WithUrl(rows)[j], principal, ratio).Success?
    decreases |rows|
  {
    if rows == [] then Success([])
    else
      var init := rows[..|rows| - 1];
      var last := rows[|rows| - 1];
      var w := WithUrl(init);
      assert WithUrl(rows) == w + (if last.url.Some? then [last] else []);
      assert forall i :: 0 <= i < |w| ==> WithUrl(rows)[i] == w[i];
      match Candidates(init, principal, ratio)
      case Failure(e) => Failure(e)
      case Success(cs) =>
        if last.url.None? then Success(cs)
        else
          assert WithUrl(rows)[|w|] == last;
          match Score(last, principal, ratio)
          case Failure(e) => Failure(e)
          case Success(c) => Success(cs + [c])
  }

  /** The effect of one more row after rows whose candidates all parsed. */
  lemma CandidatesSnoc(rows: seq<ExhibitRow>, principal: Option<string>, ratio: Ratio, n: nat)
    requires n < |rows|
    requires Candidates(rows[..n], principal, ratio).Success?
    ensures var cs := Candidates(rows[..n], principal, ratio).value;
      Candidates(rows[..n + 1], principal, ratio)
        == if rows[n].url.None? then Success(cs)
           else match Score(rows[n], principal, ratio)
                case Failure(e) => Failure(e)
                case Success(c) => Success(cs + [c])
  {
    assert rows[..n + 1][..n] == rows[..n];
  }

  /** A failure stays the answer however many rows follow. */
  lemma {:induction false} CandidatesStops(rows: seq<ExhibitRow>, principal: Option<string>, ratio: Ratio, n: nat)
    requires 0 < n <= |rows|
    requires Candidates(rows[..n], principal, ratio).Failure?
    ensures Candidates(rows, principal, ratio) == Candidates(rows[..n], principal, ratio)
    decreases |rows| - n
  {
    if n < |rows| {
      assert rows[..n + 1][..n] == rows[..n];
      CandidatesStops(rows, principal, ratio, n + 1);
    } else {
      assert rows[..n] == rows;
    }
  }

  /** Every candidate carries a calendar date. */
  predicate ValidCandidates(cs: seq<Candidate>) {
    forall i :: 0 <= i < |cs| ==> ValidDate(cs[i].date)
  }

  lemma CandidatesValid(rows: seq<ExhibitRow>, principal: Option<string>, ratio: Ratio)
    requires Candidates(rows, principal, ratio).Success?
    ensures ValidCandidates(Candidates(rows, principal, ratio).value)
  {
    var cs := Candidates(rows, principal, ratio).value;
    forall i | 0 <= i < |cs| ensures ValidDate(cs[i].date) {
      assert Score(WithUrl(rows)[i], principal, ratio) == Success(cs[i]);
    }
  }

  // ---------------------------------------------------------------------------
  // The documented choice

  /** `a` beats `b`: a higher score, or the same score and a later date. */
  predicate Outranks(a: Candidate, b: Candidate) {
    a.score > b.score || (a.score == b.score && Before(b.date, a.date))
  }

  /** The candidate the selection promises: nothing beats it, and it beats every
      candidate before it, so that among equals the earliest in page order wins. */
  function BestIndex(cs: seq<Candidate>): (i: nat)
    requires |cs| > 0
    ensures i < |cs|
    ensures forall j :: 0 <= j < |cs| ==> !Outranks(cs[j], cs[i])
    ensures forall j :: 0 <= j < i ==> Outranks(cs[i], cs[j])
    decreases |cs|
  {
    if |cs| == 1 then 0
    else
      var k := BestIndex(cs[1..]);
      assert forall j :: 1 <= j < |cs| ==> cs[j] == cs[1..][j - 1];
      if Outranks(cs[1 + k], cs[0]) then 1 + k else 0
  }

  /** The candidate with those two properties is unique. */
  lemma BestIndexUnique(cs: seq<Candidate>, i: nat)
    requires i < |cs|
    requires forall j :: 0 <= j < |cs| ==> !Outranks(cs[j], cs[i])
    requires forall j :: 0 <= j < i ==> Outranks(cs[i], cs[j])
    ensures BestIndex(cs) == i
  {
  }

  /** The url the selection returns: None when no row has a link. */
  function SelectExhibit(rows: seq<ExhibitRow>, principal: Option<string>, ratio: Ratio)
    : (r: Result<Option<string>, FaraError>)
    ensures r.Success? ==> (r.value.None? <==> WithUrl(rows) == [])
    ensures r.Success? ==> (r.value.None? <==> forall i :: 0 <= i < |rows| ==> rows[i].url.None?)
    ensures r.Success? && r.value.Some? ==> exists i :: 0 <= i < |rows| && rows[i].url == r.value
    ensures r.Failure? <==> Candidates(rows, principal, ratio).Failure?
    ensures r.Failure? ==> r.error == Candidates(rows, principal, ratio).error
    ensures r.Success? && WithUrl(rows) != [] ==>
      var cs := Candidates(rows, principal, ratio).value;
      |cs| > 0 && r.value == Some(cs[BestIndex(cs)].url)
  {
    WithUrlKeepsLinked(rows);
    match Candidates(rows, principal, ratio)
    case Failure(e) => Failure(e)
    case Success(cs) =>
      if cs == [] then Success(None)
      else
        var b := BestIndex(cs);
        assert Score(WithUrl(rows)[b], principal, ratio) == Success(cs[b]);
        assert WithUrl(rows)[b] in rows;
        Success(Some(cs[b].url))
  }

  /** Proof step for the loop below: a scoring error is the selection's error. */
  lemma SelectExhibitFails(rows: seq<ExhibitRow>, principal: Option<string>, ratio: Ratio, e: FaraError)
    requires Candidates(rows, principal, ratio) == Failure(e)
    ensures SelectExhibit(rows, principal, ratio) == Failure(e)
  {
  }

  /** Proof step for the loop below: the selection from the scored candidates. */
  lemma SelectExhibitPicks(rows: seq<ExhibitRow>, principal: Option<string>, ratio: Ratio, cs: seq<Candidate>)
    requires Candidates(rows, principal, ratio) == Success(cs)
    ensures SelectExhibit(rows, principal, ratio) == if cs == [] then Success(None) else Success(Some(cs[BestIndex(cs)].url))
  {
  }

  // ---------------------------------------------------------------------------
  // The two stable sorts

  /** The date sort key: the date's ordinal. */
  function DateKey(c: Candidate): real {
    Ordinal(c.date) as real
  }

  /** The score sort key. */
  function ScoreKey(c: Candidate): real {
    c.score
  }

  /** The ordinal key orders candidates chronologically. */
  lemma DateKeyOrder(a: Candidate, b: Candidate)
    requires ValidDate(a.date) && ValidDate(b.date)
    ensures DateKey(a) < DateKey(b) <==> Before(a.date, b.date)
  {
    OrdinalOrder(a.date, b.date);
  }

  /** On candidates with calendar dates, beating is the order the two sorts decide:
      by score, then by date. */
  lemma OutranksIsLex(a: Candidate, b: Candidate)
    requires ValidDate(a.date) && ValidDate(b.date)
    ensures Outranks(a, b) <==> LexGreater(a, b, DateKey, ScoreKey)
  {
    DateKeyOrder(b, a);
  }

  /** The documented winner is the first greatest candidate by score, then date. */
  lemma BestIsLexFirstMax(cs: seq<Candidate>)
    requires |cs| > 0
    requires ValidCandidates(cs)
    ensures BestIndex(cs) == LexFirstMax(cs, DateKey, ScoreKey)
  {
    var i := LexFirstMax(cs, DateKey, ScoreKey);
    forall j | 0 <= j < |cs| ensures !Outranks(cs[j], cs[i]) {
      OutranksIsLex(cs[j], cs[i]);
    }
    forall j | 0 <= j < i ensures Outranks(cs[i], cs[j]) {
      OutranksIsLex(cs[i], cs[j]);
    }
    BestIndexUnique(cs, i);
  }

  /** Sorting by date and then by score, both descending and both stable, puts the
      documented winner first. */
  lemma TwoPassSortSelectsBest(cs: seq<Candidate>)
    requires |cs| > 0
    requires ValidCandidates(cs)
    ensures StableSortDesc(StableSortDesc(cs, DateKey), ScoreKey)[0] == cs[BestIndex(cs)]
  {
    TwoPassHead(cs, DateKey, ScoreKey);
    BestIsLexFirstMax(cs);
  }

  // ---------------------------------------------------------------------------
  // The procedure

  /** `get_exhibit_url_when_multiple_present`: scores every row with a link and parses
      its date, then sorts by date and by score, both descending, and returns the
      head's url. */
  method GetExhibitUrlWhenMultiplePresent(rows: seq<ExhibitRow>, principal: Option<string>, ratio: Ratio)
    returns (r: Result<Option<string>, FaraError>)
    ensures r == SelectExhibit(rows, principal, ratio)
  {
    var withScores: seq<Candidate> := [];
    var i := 0;
    while i < |rows|
      invariant 0 <= i <= |rows|
      invariant Candidates(rows[..i], principal, ratio) == Success(withScores)
    {
      var row := rows[i];
      CandidatesSnoc(rows, principal, ratio, i);
      if row.url.Some? {
        if row.foreignPrincipal.None? || principal.None? {
          CandidatesStops(rows, principal, ratio, i + 1);
          SelectExhibitFails(rows, principal, ratio, StringMatchError(row.foreignPrincipal, principal));
          return Failure(StringMatchError(row.foreignPrincipal, principal));
        }
        var score := ratio(row.foreignPrincipal.value, principal.value);
        var parsed := ParseUsDate(row.date);
        if parsed.Failure? {
          CandidatesStops(rows, principal, ratio, i + 1);
          SelectExhibitFails(rows, principal, ratio, parsed.error);
          return Failure(parsed.error);
        }
        withScores := withScores + [Candidate(row.url.value, parsed.value, score)];
      }
      i := i + 1;
    }
    assert rows[..i] == rows;
    SelectExhibitPicks(rows, principal, ratio, withScores);
    var byDate := StableSortDesc(withScores, DateKey);
    var byScore := StableSortDesc(byDate, ScoreKey);
    if |byScore| != 0 {
      CandidatesValid(rows, principal, ratio);
      TwoPassSortSelectsBest(withScores);
      r := Success(Some(byScore[0].url));
    } else {
      r := Success(None);
    }
  }

  // ---------------------------------------------------------------------------
  // The exhibit page

  /** The texts one of a row's cell queries returns. */
  datatype ExhibitRowCells = ExhibitRowCells(dateStamped: seq<string>, linkTexts: seq<string>, linkHrefs: seq<string>)

  /** The row record built from one row's cells: the first text of each query, or
      None when it returns nothing. */
  function ExhibitRowOf(cells: ExhibitRowCells): (r: ExhibitRow)
    ensures r.url.Some? <==> cells.linkHrefs != []
    ensures r.url.Some? ==> r.url.value == cells.linkHrefs[0]
    ensures r.foreignPrincipal.Some? <==> cells.linkTexts != []
    ensures r.foreignPrincipal.Some? ==> r.foreignPrincipal.value == cells.linkTexts[0]
    ensures r.date.Some? <==> cells.dateStamped != []
    ensures r.date.Some? ==> r.date.value == cells.dateStamped[0]
  {
    ExhibitRow(ExtractFirst(cells.dateStamped), ExtractFirst(cells.linkTexts), ExtractFirst(cells.linkHrefs))
  }

  /** The exhibit url of a page: none for no row, the page's first exhibit link for a
      single row, and the selection among the rows otherwise. */
  function ExhibitUrl(rows: seq<ExhibitRowCells>, docLinkHrefs: seq<string>, principal: Option<string>, ratio: Ratio)
    : (r: Result<Option<string>, FaraError>)
    ensures |rows| == 0 ==> r == Success(None)
    ensures |rows| == 1 ==> r.Success? && (r.value.None? <==> docLinkHrefs == [])
    ensures |rows| == 1 && docLinkHrefs != [] ==> r == Success(Some(docLinkHrefs[0]))
    ensures |rows| > 1 ==> r == SelectExhibit(seq(|rows|, k requires 0 <= k < |rows| => ExhibitRowOf(rows[k])), principal, ratio)
  {
    if |rows| == 0 then Success(None)
    else if |rows| == 1 then Success(ExtractFirst(docLinkHrefs))
    else SelectExhibit(seq(|rows|, k requires 0 <= k < |rows| => ExhibitRowOf(rows[k])), principal, ratio)
  }

  /** The row-count branching of `extract_data_from_exhibit_url_page`, collecting the
      rows' records in a list before the selection. */
  method ExhibitUrlOfPage(rows: seq<ExhibitRowCells>, docLinkHrefs: seq<string>, principal: Option<string>, ratio: Ratio)
    returns (r: Result<Option<string>, FaraError>)
    ensures r == ExhibitUrl(rows, docLinkHrefs, principal, ratio)
  {
    if |rows| == 0 {
      r := Success(None);
    } else if |rows| == 1 {
      if |docLinkHrefs| == 0 {
        r := Success(None);
      } else {
        r := Success(Some(docLinkHrefs[0]));
      }
    } else {
      var rowDataList: seq<ExhibitRow> := [];
      var i := 0;
      while i < |rows|
        invariant 0 <= i <= |rows|
        invariant |rowDataList| == i
        invariant forall k :: 0 <= k < i ==> rowDataList[k] == ExhibitRowOf(rows[k])
      {
        rowDataList := rowDataList + [ExhibitRowOf(rows[i])];
        i := i + 1;
      }
      assert rowDataList == seq(|rows|, k requires 0 <= k < |rows| => ExhibitRowOf(rows[k]));
      r := GetExhibitUrlWhenMultiplePresent(rowDataList, principal, ratio);
    }
  }
}
