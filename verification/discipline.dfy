/** The discipline classifier: an ordered keyword -> label table searched
    by substring in the lower-cased course name, first hit wins, with
    "General" for names that contain none of the keywords. */
module Discipline {

  import opened Wrappers
  import opened Text
  import opened Ordered

  const Default: string := "General"

  /** The keyword table, in the order the classifier consults it. */
  const Table: seq<(string, string)> := [
    ("computer", "Computer Science"), ("engineering", "Engineering"),
    ("law", "Law"), ("medicine", "Medicine"), ("medic", "Medicine"),
    ("business", "Business"), ("management", "Management"), ("mba", "Management"),
    ("pharm", "Pharmacy"), ("nurs", "Nursing"), ("architect", "Architecture"),
    ("math", "Mathematics"), ("econom", "Economics"), ("dent", "Dentistry"),
    ("communi", "Communication"), ("history", "History"), ("archaeol", "Archaeology"),
    ("data science", "Data Science"), ("arts", "Arts"), ("science", "Sciences"),
    ("hotel", "Hotel Management"), ("commerce", "Commerce")
  ]

  /** Keyword `i` of the table occurs in `name`, case-insensitively. */
  predicate Hits(name: string, i: int)
    requires 0 <= i < |Table|
  {
    Contains(Lower(name), Table[i].0)
  }

  /** Keyword `i` occurs in `name` and no earlier keyword does. */
  predicate FirstHit(name: string, i: int) {
    0 <= i < |Table| && Hits(name, i) && forall j :: 0 <= j < i ==> !Hits(name, j)
  }

  lemma DefaultIsNoLabel()
    ensures forall i :: 0 <= i < |Table| ==> Table[i].1 != Default
  {
  }

  /** Classifies a course name. Total: every name gets exactly one label,
      the label of the first keyword that occurs, or "General" when none does. */
  function Guess(name: string): (r: string)
    ensures r == Default <==> forall i :: 0 <= i < |Table| ==> !Hits(name, i)
    ensures r != Default ==> exists i :: FirstHit(name, i) && r == Table[i].1
  {
    DefaultIsNoLabel();
    var low := Lower(name);
    match FirstIndex(Table, (e: (string, string)) => Contains(low, e.0))
    case Some(i) => assert FirstHit(name, i); Table[i].1
    case None => Default
  }

  /** The label is decided by the first hit alone: whatever else the name
      contains after it in table order is irrelevant. */
  lemma GuessIsFirstHitLabel(name: string, i: int)
    requires FirstHit(name, i)
    ensures Guess(name) == Table[i].1
  {
    DefaultIsNoLabel();
  }

  /** The classifier ignores letter case. */
  lemma {:induction false} GuessIgnoresCase(a: string, b: string)
    requires Lower(a) == Lower(b)
    ensures Guess(a) == Guess(b)
  {
    DefaultIsNoLabel();
    assert forall i :: 0 <= i < |Table| ==> (Hits(a, i) <==> Hits(b, i));
    if Guess(a) != Default {
      var i :| FirstHit(a, i) && Guess(a) == Table[i].1;
      assert FirstHit(b, i);
      GuessIsFirstHitLabel(b, i);
    }
  }

  /** Worked example of the classifier on a typical degree title. */
  lemma ComputerScienceExample()
    ensures Guess("BSc Computer Science") == "Computer Science"
  {
    var name := "BSc Computer Science";
    assert Lower(name)[4..12] == "computer";
    assert OccursAt(Lower(name), "computer", 4);
    GuessIsFirstHitLabel(name, 0);
  }
}
