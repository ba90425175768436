/** The programme-level rule of the two text-scan adapters (Jamia Millia
    Islamia and Jamia Hamdard): keyword groups checked in precedence order,
    master's first, then doctoral, then (JMI only) diploma, bachelor's as
    the default. Keywords are matched in the lower-cased text. */
module Adapters {

  import opened Text

  const Masters: string := "Master's"
  const Doctoral: string := "Doctoral"
  const Diploma: string := "Diploma"
  const Bachelors: string := "Bachelor's"

  const JmiMasterKeywords: seq<string> := ["m.tech", "m.sc", "master", "mba"]
  const HamdardMasterKeywords: seq<string> := ["m.tech", "m.sc", "master", "mba", "ll.m"]

  /** Level of a programme name found on the JMI engineering faculty page. */
  function JmiLevel(text: string): (r: string)
    ensures r == Masters <==> ContainsAny(Lower(text), JmiMasterKeywords)
    ensures r == Doctoral <==> !ContainsAny(Lower(text), JmiMasterKeywords) && Contains(Lower(text), "ph.d")
    ensures r == Diploma <==> !ContainsAny(Lower(text), JmiMasterKeywords) && !Contains(Lower(text), "ph.d")
                              && Contains(Lower(text), "diploma")
    ensures r == Bachelors <==> !ContainsAny(Lower(text), JmiMasterKeywords) && !Contains(Lower(text), "ph.d")
                                && !Contains(Lower(text), "diploma")
  {
    var low := Lower(text);
    if ContainsAny(low, JmiMasterKeywords) then Masters
    else if Contains(low, "ph.d") then Doctoral
    else if Contains(low, "diploma") then Diploma
    else Bachelors
  }

  /** Level of a programme name found on a Jamia Hamdard school page: the
      same precedence with "ll.m" added to the master's keywords and no
      diploma branch. */
  function HamdardLevel(text: string): (r: string)
    ensures r == Masters <==> ContainsAny(Lower(text), HamdardMasterKeywords)
    ensures r == Doctoral <==> !ContainsAny(Lower(text), HamdardMasterKeywords) && Contains(Lower(text), "ph.d")
    ensures r == Bachelors <==> !ContainsAny(Lower(text), HamdardMasterKeywords) && !Contains(Lower(text), "ph.d")
  {
    var low := Lower(text);
    if ContainsAny(low, HamdardMasterKeywords) then Masters
    else if Contains(low, "ph.d") then Doctoral
    else Bachelors
  }

  /** Jamia Hamdard never labels a programme a diploma. */
  lemma HamdardNeverDiploma(text: string)
    ensures HamdardLevel(text) != Diploma
  {
  }

  /** The two rules agree on every text that mentions neither "ll.m" nor
      "diploma"; a JMI diploma is a Jamia Hamdard bachelor's unless an
      "ll.m" makes it a master's. */
  lemma {:induction false} LevelsAgree(text: string)
    ensures !Contains(Lower(text), "ll.m") && !Contains(Lower(text), "diploma") ==>
              JmiLevel(text) == HamdardLevel(text)
    ensures JmiLevel(text) == Diploma ==>
              HamdardLevel(text) == (if Contains(Lower(text), "ll.m") then Masters else Bachelors)
  {
    var low := Lower(text);
    assert ContainsAny(low, HamdardMasterKeywords) <==>
           ContainsAny(low, JmiMasterKeywords) || Contains(low, "ll.m") by {
      if ContainsAny(low, HamdardMasterKeywords) && !Contains(low, "ll.m") {
        var i :| 0 <= i < |HamdardMasterKeywords| && Contains(low, HamdardMasterKeywords[i]);
        assert i < 4 && HamdardMasterKeywords[i] == JmiMasterKeywords[i];
      }
      if ContainsAny(low, JmiMasterKeywords) {
        var i :| 0 <= i < |JmiMasterKeywords| && Contains(low, JmiMasterKeywords[i]);
        assert HamdardMasterKeywords[i] == JmiMasterKeywords[i];
      }
      if Contains(low, "ll.m") {
        assert Contains(low, HamdardMasterKeywords[4]);
      }
    }
  }
}
