/** The record store: the sequence of records persisted under the single
    local-storage key `websites`, read whole and overwritten whole by every
    operation, and the operations of the page on it. */
module Store {
  import opened Wrappers
  import opened JsValue
  import opened Text
  import opened Records
  import opened Seqs
  import opened Csv

  /** The value under the key `websites`: `None` while the key is absent. */
  type State = Option<seq<Record>>

  /** A `TypeError` thrown by reading a property of `null` or `undefined`. */
  datatype JsError = TypeError

  /** `JSON.parse(localStorage.getItem('websites')) || []`. */
  function Load(st: State): seq<Record> {
    st.GetOr([])
  }

  /** A missing key reads as the empty list. */
  lemma LoadMissing()
    ensures Load(None) == []
  {
  }

  /** `localStorage.setItem('websites', JSON.stringify(recs))`. */
  function Save(recs: seq<Record>): (st: State)
    ensures st.Some?
    ensures Load(st) == recs
  {
    Some(recs)
  }

  /** Re-saving what was loaded changes nothing that a later load can see. */
  lemma SaveLoadIdempotent(st: State)
    ensures Load(Save(Load(st))) == Load(st)
  {
  }

  /** `loadCSVData`: the parsed file replaces whatever the store held. */
  function LoadCsvData(text: string): (st: State)
    ensures Load(st) == ParseCsv(text)
    ensures forall k :: 0 <= k < |Load(st)| ==> Complete(Load(st)[k])
  {
    Save(ParseCsv(text))
  }

  // ---------------------------------------------------------------- search

  /** The record's name is a string, so `website_name.toLowerCase()` does not throw. */
  predicate HasName(r: Record) {
    r.websiteName.Text?
  }

  /** The filter callback of `searchWebsite`, for an already lower-cased term;
      a missing name reads as the empty string. */
  function NameMatcher(lowerTerm: string): Record -> bool {
    (r: Record) => Includes(Lower(TextOf(r.websiteName)), lowerTerm)
  }

  /** The filter callback of `searchWebsite` as written, for an already
      lower-cased term: `website_name.toLowerCase().includes(term)`. `Search`
      applies it only once every stored name is a string, because on a missing
      name the call throws. */
  function SearchCallback(lowerTerm: string): Record -> bool {
    (r: Record) => r.websiteName.Text? && Includes(Lower(r.websiteName.s), lowerTerm)
  }

  /** The search filter with a missing name read as the empty string, as the
      table displays it: the stored records whose lower-cased name includes the
      lower-cased term, in store order. Unlike `Search` it never throws. */
  function FilterByName(st: State, term: string): (view: seq<Record>)
    ensures forall x :: x in view ==>
      x in Load(st) && Includes(Lower(TextOf(x.websiteName)), Lower(term))
    ensures forall k :: 0 <= k < |Load(st)| && Includes(Lower(TextOf(Load(st)[k].websiteName)), Lower(term)) ==>
      Load(st)[k] in view
  {
    Filter(Load(st), NameMatcher(Lower(term)))
  }

  /** With the empty term every stored record is shown, in order. */
  lemma FilterByNameEmptyTerm(st: State)
    ensures FilterByName(st, "") == Load(st)
  {
    forall k | 0 <= k < |Load(st)| ensures NameMatcher(Lower(""))(Load(st)[k]) {
      IncludesEmpty(Lower(TextOf(Load(st)[k].websiteName)));
    }
    FilterAll(Load(st), NameMatcher(Lower("")));
  }

  /** `searchWebsite`: the stored records whose lower-cased name includes the
      lower-cased term, in store order; throws if a stored name is not a string.
      The store itself is only read. */
  function Search(st: State, term: string): (r: Result<seq<Record>, JsError>)
    ensures r.Success? <==> forall k :: 0 <= k < |Load(st)| ==> HasName(Load(st)[k])
    ensures r.Success? ==>
      forall x :: x in r.value ==>
        x in Load(st) && HasName(x) && Includes(Lower(x.websiteName.s), Lower(term))
    ensures r.Success? ==>
      forall k :: 0 <= k < |Load(st)| && Includes(Lower(TextOf(Load(st)[k].websiteName)), Lower(term)) ==>
        Load(st)[k] in r.value
  {
    var recs := Load(st);
    if forall k :: 0 <= k < |recs| ==> HasName(recs[k]) then
      Success(Filter(recs, SearchCallback(Lower(term))))
    else
      Failure(TypeError)
  }

  /** Where the search does not throw, it shows what the corrected filter
      `FilterByName` shows: the two callbacks agree on named records. */
  lemma SearchAgreesWithFilterByName(st: State, term: string)
    requires Search(st, term).Success?
    ensures Search(st, term).value == FilterByName(st, term)
  {
    FilterAgree(Load(st), SearchCallback(Lower(term)), NameMatcher(Lower(term)));
  }

  /** A successful search is an order-preserving subsequence of the store:
      the records at increasing positions `Positions(...)`. */
  lemma SearchSelects(st: State, term: string)
    requires Search(st, term).Success?
    ensures Search(st, term).value == Select(Load(st), Positions(Load(st), NameMatcher(Lower(term))))
  {
    SearchAgreesWithFilterByName(st, term);
    FilterIsSelection(Load(st), NameMatcher(Lower(term)));
  }

  /** The empty term shows the whole store, unchanged and in order. */
  lemma SearchEmptyTerm(st: State)
    requires Search(st, "").Success?
    ensures Search(st, "").value == Load(st)
  {
    SearchAgreesWithFilterByName(st, "");
    FilterByNameEmptyTerm(st);
  }

  /** The search ignores the case of the term. */
  lemma SearchIgnoresTermCase(st: State, t1: string, t2: string)
    requires Lower(t1) == Lower(t2)
    ensures Search(st, t1) == Search(st, t2)
  {
  }

  /** `"ABC"` and `"abc"` give the same result. */
  lemma SearchAbcExample(st: State)
    ensures Search(st, "ABC") == Search(st, "abc")
  {
    assert Lower("ABC") == Lower("abc");
    SearchIgnoresTermCase(st, "ABC", "abc");
  }

  // ---------------------------------------------------------------- add

  /** The answers to the prompts of `addWebsite`; `Null` is a cancelled prompt. */
  datatype AddAnswers = AddAnswers(
    category: Value,
    websiteName: Value,
    country: Value,
    launchYear: Value,
    monthlyVisitors: Value,
    userName: Value,
    comment: Value,
    feedback: Value,
    rating: Value)

  datatype AddOutcome = Added | CategoryRequired | InvalidNumbers

  /** The record `addWebsite` builds; `now` is the formatted current time. */
  function NewRecord(a: AddAnswers, now: string): Record {
    Record(a.websiteName, a.category, a.country, a.launchYear, a.monthlyVisitors,
           a.userName, Text(now), a.comment, a.feedback, a.rating)
  }

  /** The validation guard of `addWebsite`. */
  predicate NumbersRejected(w: Record) {
    IsNaN(w.launchYear) || IsNaN(w.monthlyVisitors) || IsNaN(w.rating) ||
    LessThan(w.rating, 1) || GreaterThan(w.rating, 5)
  }

  /** `addWebsite`: a falsy category or a failed numeric check leaves the store
      untouched (not even written); otherwise the new record is appended. */
  function AddWebsite(st: State, a: AddAnswers, now: string): (r: (State, AddOutcome))
    ensures r.1 == Added <==>
      Truthy(a.category) && !IsNaN(a.launchYear) && !IsNaN(a.monthlyVisitors) &&
      NumberBetween(a.rating, 1, 5)
    ensures !Truthy(a.category) ==> r.1 == CategoryRequired
    ensures Truthy(a.category) && r.1 != Added ==> r.1 == InvalidNumbers
    ensures r.1 != Added ==> r.0 == st
    ensures r.1 == Added ==>
      |Load(r.0)| == |Load(st)| + 1 &&
      Load(r.0)[..|Load(st)|] == Load(st) &&
      Load(r.0)[|Load(st)|] == NewRecord(a, now)
  {
    if !Truthy(a.category) then (st, CategoryRequired)
    else
      var w := NewRecord(a, now);
      RangeGuard(w.rating, 1, 5);
      if NumbersRejected(w) then (st, InvalidNumbers)
      else
        var recs := Load(st);
        assert (recs + [w])[..|recs|] == recs;
        (Save(recs + [w]), Added)
  }

  /** A whole-number rating above 5 (such as 6) is rejected and the store is
      left as it was. */
  lemma AddRejectsHighRating(st: State, a: AddAnswers, now: string, rating: nat)
    requires rating > 5 && a.rating == Text(DecimalString(rating))
    ensures AddWebsite(st, a, now).0 == st
    ensures AddWebsite(st, a, now).1 != Added
  {
    NumberOfDecimal(rating);
  }

  /** Whole-number year and visitor count with a whole rating from 1 to 5
      (such as 2020, 500 and 3) and a category are accepted: the store grows
      by one. */
  lemma AddAcceptsWholeNumbers(st: State, a: AddAnswers, now: string, year: nat, visitors: nat, rating: nat)
    requires Truthy(a.category)
    requires a.launchYear == Text(DecimalString(year))
    requires a.monthlyVisitors == Text(DecimalString(visitors))
    requires 1 <= rating <= 5 && a.rating == Text(DecimalString(rating))
    ensures AddWebsite(st, a, now).1 == Added
    ensures |Load(AddWebsite(st, a, now).0)| == |Load(st)| + 1
  {
    NumberOfDecimal(year);
    NumberOfDecimal(visitors);
    NumberOfDecimal(rating);
  }

  /** `isNaN` lets a cancelled or blank year and visitor count through:
      `Number(null)` and `Number("")` are 0. */
  lemma AddAcceptsBlankNumbers(st: State, a: AddAnswers, now: string)
    requires Truthy(a.category) && NumberBetween(a.rating, 1, 5)
    requires a.launchYear == Null && a.monthlyVisitors == Text("")
    ensures AddWebsite(st, a, now).1 == Added
  {
    BlankIsZero("");
  }

  // ---------------------------------------------------------------- delete

  /** `recs.splice(index, 1)`: removes the element at `index`; an index past the
      end removes nothing. */
  function RemoveAt(recs: seq<Record>, index: nat): seq<Record> {
    if index < |recs| then recs[..index] + recs[index + 1..] else recs
  }

  /** `deleteWebsite`: removes the record at `index` and writes the store back. */
  function DeleteWebsite(st: State, index: nat): (r: State)
    ensures r.Some?
    ensures index < |Load(st)| ==>
      |Load(r)| == |Load(st)| - 1 &&
      (forall j :: 0 <= j < index ==> Load(r)[j] == Load(st)[j]) &&
      (forall j :: index <= j < |Load(r)| ==> Load(r)[j] == Load(st)[j + 1])
    ensures index >= |Load(st)| ==> Load(r) == Load(st)
  {
    Save(RemoveAt(Load(st), index))
  }

  /** Deleting cuts the record at `index` out of the sequence and so removes
      exactly one occurrence of it. */
  lemma DeleteRemovesOne(st: State, index: nat)
    requires index < |Load(st)|
    ensures Load(DeleteWebsite(st, index)) == Load(st)[..index] + Load(st)[index + 1..]
    ensures multiset(Load(DeleteWebsite(st, index))) + multiset{Load(st)[index]} == multiset(Load(st))
  {
    var recs := Load(st);
    assert recs == recs[..index] + [recs[index]] + recs[index + 1..];
  }

  // ---------------------------------------------------------------- update

  /** The answers to the prompts of `updateWebsite`; `Null` is a cancelled prompt. */
  datatype UpdateAnswers = UpdateAnswers(
    websiteName: Value,
    category: Value,
    country: Value,
    launchYear: Value,
    monthlyVisitors: Value,
    userName: Value,
    comment: Value,
    feedback: Value,
    rating: Value)

  /** `answer || previous`: a truthy answer replaces the field, any other keeps it. */
  predicate TakesAnswer(updated: Value, answer: Value, previous: Value) {
    (Truthy(answer) ==> updated == answer) && (!Truthy(answer) ==> updated == previous)
  }

  /** The record `updateWebsite` builds from the stored one. */
  function Revised(w: Record, a: UpdateAnswers, now: string): Record {
    Record(Or(a.websiteName, w.websiteName), Or(a.category, w.category), Or(a.country, w.country),
           Or(a.launchYear, w.launchYear), Or(a.monthlyVisitors, w.monthlyVisitors),
           Or(a.userName, w.userName), Text(now), Or(a.comment, w.comment),
           Or(a.feedback, w.feedback), Or(a.rating, w.rating))
  }

  /** `updateWebsite`: replaces the record at `index`, field by field, and
      stamps the login time; an index past the end throws before anything is
      written. */
  function UpdateWebsite(st: State, index: nat, a: UpdateAnswers, now: string): (r: Result<State, JsError>)
    ensures r.Failure? <==> index >= |Load(st)|
    ensures r.Success? ==>
      |Load(r.value)| == |Load(st)| &&
      forall j :: 0 <= j < |Load(st)| && j != index ==> Load(r.value)[j] == Load(st)[j]
    ensures r.Success? ==>
      var w := Load(st)[index];
      var u := Load(r.value)[index];
      && u.loginTime == Text(now)
      && TakesAnswer(u.websiteName, a.websiteName, w.websiteName)
      && TakesAnswer(u.category, a.category, w.category)
      && TakesAnswer(u.country, a.country, w.country)
      && TakesAnswer(u.launchYear, a.launchYear, w.launchYear)
      && TakesAnswer(u.monthlyVisitors, a.monthlyVisitors, w.monthlyVisitors)
      && TakesAnswer(u.userName, a.userName, w.userName)
      && TakesAnswer(u.comment, a.comment, w.comment)
      && TakesAnswer(u.feedback, a.feedback, w.feedback)
      && TakesAnswer(u.rating, a.rating, w.rating)
  {
    var recs := Load(st);
    if index < |recs| then
      Success(Save(recs[index := Revised(recs[index], a, now)]))
    else
      Failure(TypeError)
  }

  /** Changing only the category leaves every other field of the record as it
      was, except the login time. */
  lemma UpdateCategoryOnly(st: State, index: nat, now: string)
    requires index < |Load(st)|
    ensures var a := UpdateAnswers(Null, Text("X"), Null, Null, Null, Null, Null, Null, Null);
      var r := UpdateWebsite(st, index, a, now);
      r.Success? &&
      Load(r.value)[index] == Load(st)[index].(category := Text("X"), loginTime := Text(now))
  {
  }
}
