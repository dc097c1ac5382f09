/** Two defects of the page, each as the code behaves and as corrected. */
module Findings {
  import opened Wrappers
  import opened JsValue
  import opened Text
  import opened Records
  import opened Seqs
  import opened Store

  /** As written: cancelling the name prompt of `addWebsite` stores a `null`
      name, and from then on every search throws on `null.toLowerCase()`. */
  lemma SearchThrowsAfterCancelledName(st: State, a: AddAnswers, now: string, term: string)
    requires a.websiteName == Null
    requires AddWebsite(st, a, now).1 == Added
    ensures Search(AddWebsite(st, a, now).0, term).Failure?
  {
    var recs := Load(AddWebsite(st, a, now).0);
    assert !HasName(recs[|Load(st)|]);
  }

  /** Corrected: a record without a name is shown exactly when the term is
      empty, as a record whose name is the empty string would be. */
  lemma {:induction false} MissingNameShownOnlyForEmptyTerm(st: State, term: string)
    ensures forall x :: x in Load(st) && !HasName(x) ==>
      (x in FilterByName(st, term) <==> term == "")
  {
    if term == "" {
      FilterByNameEmptyTerm(st);
    } else {
      forall x | x in FilterByName(st, term) && !HasName(x) ensures false {
      }
    }
  }

  /** A complete record that differs from the others only in its name. */
  function Named(name: string): Record {
    Record(Text(name), Text("c"), Text("c"), Text("2000"), Text("1"), Text("u"),
           Text("t"), Text("c"), Text("f"), Text("5"))
  }

  /** As written: a row's Delete button passes the row's position in the view
      on screen, and `deleteWebsite` applies it to the whole store. After a
      search for "beta" shows only the second record, deleting the first row
      removes the first record and keeps the one shown. */
  lemma DeleteFromSearchViewHitsWrongRecord()
    ensures var st := Some([Named("alpha"), Named("beta")]);
      Search(st, "beta") == Success([Named("beta")]) &&
      DeleteWebsite(st, 0) == Some([Named("beta")])
  {
    var st := Some([Named("alpha"), Named("beta")]);
    assert Load(st) == [Named("alpha"), Named("beta")];
    assert Lower("beta") == "beta";
    assert Lower("alpha") == "alpha";
    assert OccursAt("beta", "beta", 0);
    FirstCharAbsent("alpha", "beta");
    var p := NameMatcher(Lower("beta"));
    assert !p(Named("alpha")) && p(Named("beta"));
    assert [Named("alpha"), Named("beta")][..1] == [Named("alpha")];
    assert Filter([Named("alpha")], p) == [];
    assert FilterByName(st, "beta") == [Named("beta")];
  }

  /** The store position of row `row` of the view for `term`. */
  function ViewPosition(st: State, term: string, row: nat): (i: nat)
    requires row < |FilterByName(st, term)|
    ensures i < |Load(st)|
    ensures Load(st)[i] == FilterByName(st, term)[row]
    ensures |Filter(Load(st)[..i], NameMatcher(Lower(term)))| == row
  {
    var pos := Positions(Load(st), NameMatcher(Lower(term)));
    FilterIsSelection(Load(st), NameMatcher(Lower(term)));
    CountBefore(Load(st), NameMatcher(Lower(term)), row);
    pos[row]
  }

  /** Corrected: the Delete button of row `row` of the view for `term`
      removes the record shown in that row, and nothing else. */
  function DeleteShown(st: State, term: string, row: nat): (r: State)
    ensures row < |FilterByName(st, term)| ==>
      var i := ViewPosition(st, term, row);
      Load(st)[i] == FilterByName(st, term)[row] &&
      |Filter(Load(st)[..i], NameMatcher(Lower(term)))| == row &&
      Load(r) == Load(st)[..i] + Load(st)[i + 1..]
    ensures row < |FilterByName(st, term)| ==>
      multiset(Load(r)) + multiset{FilterByName(st, term)[row]} == multiset(Load(st))
    ensures row >= |FilterByName(st, term)| ==> Load(r) == Load(st)
  {
    if row < |FilterByName(st, term)| then
      var i := ViewPosition(st, term, row);
      var r := DeleteWebsite(st, i);
      DeleteRemovesOne(st, i);
      assert Load(r) == Load(st)[..i] + Load(st)[i + 1..];
      r
    else
      DeleteWebsite(st, |Load(st)|)
  }
}
