/** `ResumeChatbot.find_relevant_section` (rupanjal_chatbot/app.py:81-108):
    score every section of a fixed, ordered keyword table by how many of its
    keywords occur in the lower-cased question, keep the sections that scored,
    stable-sort them by score, highest first, and take the first one. */
module Sections {
  import opened Text

  datatype Section =
    | Contact
    | Experience
    | Skills
    | Education
    | Certifications
    | Projects
    | Summary

  /** What `find_relevant_section` returns: one section, or `'general'` when
      no keyword matched. */
  datatype Topic = General | About(section: Section)

  /** Rows of a keyword table, in declaration order. */
  type KeywordTable = seq<(Section, seq<string>)>

  /** A section with its score. */
  type Scored = (Section, nat)

  /** The `section_keywords` dictionary. Python dictionaries iterate in
      insertion order, so this order is the order the sections are scored in. */
  const SectionKeywords: KeywordTable := [
    (Contact, ["contact", "email", "phone", "reach", "connect", "address"]),
    (Experience, ["experience", "work", "job", "role", "position", "company", "career"]),
    (Skills, ["skill", "technology", "programming", "tool", "technical", "proficient", "language"]),
    (Education, ["education", "degree", "university", "college", "study", "graduation"]),
    (Certifications, ["certification", "certificate", "certified", "credential"]),
    (Projects, ["project", "built", "developed", "created", "implemented", "worked on"]),
    (Summary, ["summary", "about", "overview", "background", "profile", "objective"])
  ]

  /** The positions of the keywords that occur in `q`. */
  ghost function Hits(keywords: seq<string>, q: string): set<int> {
    set k | 0 <= k < |keywords| && Contains(q, keywords[k])
  }

  /** `sum(1 for keyword in keywords if keyword in q)`: how many of
      `keywords` occur in `q`, so zero exactly when none does, and never more
      than there are keywords. */
  function Score(keywords: seq<string>, q: string): (n: nat)
    ensures n == |Hits(keywords, q)|
    ensures n <= |keywords|
    ensures n == 0 <==> forall k :: 0 <= k < |keywords| ==> !Contains(q, keywords[k])
  {
    if keywords == [] then
      assert Hits(keywords, q) == {};
      0
    else
      var init, last := keywords[..|keywords| - 1], keywords[|keywords| - 1];
      var n := Score(init, q) + if Contains(q, last) then 1 else 0;
      HitsOfSnoc(keywords, q);
      assert forall k :: 0 <= k < |init| ==> init[k] == keywords[k];
      n
  }

  /** The hits of a non-empty list are the hits of all but its last keyword,
      plus the last position when the last keyword occurs. */
  lemma HitsOfSnoc(keywords: seq<string>, q: string)
    requires keywords != []
    ensures var init := keywords[..|keywords| - 1];
            && Hits(keywords, q) == Hits(init, q) + (if Contains(q, keywords[|init|]) then {|init|} else {})
            && |init| !in Hits(init, q)
  {
    var init := keywords[..|keywords| - 1];
    var extra: set<int> := if Contains(q, keywords[|init|]) then {|init|} else {};
    forall k
      ensures k in Hits(keywords, q) <==> k in Hits(init, q) + extra
    {
      if 0 <= k < |init| {
        assert init[k] == keywords[k];
      }
    }
  }

  /** Every row of the table with its score, in table order. */
  function ScoreAll(table: KeywordTable, q: string): seq<Scored> {
    seq(|table|, k requires 0 <= k < |table| => (table[k].0, Score(table[k].1, q)))
  }

  /** The entries that scored, in their original order (lines 97-101). */
  function Positive(ms: seq<Scored>): seq<Scored> {
    if ms == [] then [] else (if ms[0].1 > 0 then [ms[0]] else []) + Positive(ms[1..])
  }

  /** The entries `Positive` keeps are exactly the entries of `ms` with a
      positive score, so it keeps none exactly when nothing scored. */
  lemma {:induction false} PositiveMembers(ms: seq<Scored>)
    ensures forall x :: x in Positive(ms) <==> x in ms && x.1 > 0
    ensures Positive(ms) == [] <==> forall k :: 0 <= k < |ms| ==> ms[k].1 == 0
  {
    if ms != [] {
      PositiveMembers(ms[1..]);
      assert forall k :: 1 <= k < |ms| ==> ms[k] == ms[1..][k - 1];
      assert ms == [ms[0]] + ms[1..];
    }
  }

  /** Filtering keeps the order: the entries that scored in `a + b` are those
      of `a` followed by those of `b`. */
  lemma {:induction false} PositiveKeepsOrder(a: seq<Scored>, b: seq<Scored>)
    ensures Positive(a + b) == Positive(a) + Positive(b)
  {
    if a == [] {
      assert a + b == b;
    } else {
      assert (a + b)[1..] == a[1..] + b;
      PositiveKeepsOrder(a[1..], b);
    }
  }

  predicate SortedByScore(s: seq<Scored>) {
    forall i, j :: 0 <= i < j < |s| ==> s[i].1 >= s[j].1
  }

  /** `r` is `s` with `x` put at position `i`, after the entries that
      outscore `x` and ahead of the entry there, which does not. */
  predicate PlacedAt(x: Scored, s: seq<Scored>, r: seq<Scored>, i: int) {
    && 0 <= i <= |s|
    && r == s[..i] + [x] + s[i..]
    && (forall j :: 0 <= j < i ==> s[j].1 > x.1)
    && (i < |s| ==> s[i].1 <= x.1)
  }

  /** Puts `x` in front of the first entry that does not outscore it. Entries
      of equal score therefore keep `x` ahead of them, which is what keeps the
      sort below stable. */
  function Insert(x: Scored, s: seq<Scored>): (r: seq<Scored>)
    ensures multiset(r) == multiset(s) + multiset{x}
    ensures SortedByScore(s) ==> SortedByScore(r)
  {
    if s == [] || x.1 >= s[0].1 then
      [x] + s
    else
      var tail := Insert(x, s[1..]);
      assert s == [s[0]] + s[1..];
      InsertSortedStep(x, s, tail);
      [s[0]] + tail
  }

  /** `Insert` puts `x` after the entries that outscore it and ahead of the
      first that does not, so ahead of every entry of equal score. */
  lemma {:induction false} InsertPlacesAheadOfEquals(x: Scored, s: seq<Scored>) returns (i: nat)
    ensures PlacedAt(x, s, Insert(x, s), i)
  {
    if s == [] || x.1 >= s[0].1 {
      i := 0;
      assert s[..0] == [] && s[0..] == s;
    } else {
      var i0 := InsertPlacesAheadOfEquals(x, s[1..]);
      PlacedOneFurther(x, s, Insert(x, s[1..]), i0);
      i := i0 + 1;
    }
  }

  /** Placing `x` at `i` in the rest of `s`, behind a head that outscores
      `x`, places it at `i + 1` in `s`. */
  lemma PlacedOneFurther(x: Scored, s: seq<Scored>, t: seq<Scored>, i: int)
    requires s != [] && x.1 < s[0].1
    requires PlacedAt(x, s[1..], t, i)
    ensures PlacedAt(x, s, [s[0]] + t, i + 1)
  {
    var rest := s[1..];
    assert s[..i + 1] == [s[0]] + rest[..i];
    assert s[i + 1..] == rest[i..];
    forall j | 0 <= j < i + 1
      ensures s[j].1 > x.1
    {
      if j > 0 {
        assert s[j] == rest[j - 1];
      }
    }
  }

  /** The recursive case of `Insert` keeps the order: the head of `s`
      outscores `x` and, in a sorted `s`, everything after it. */
  lemma InsertSortedStep(x: Scored, s: seq<Scored>, tail: seq<Scored>)
    requires s != [] && x.1 < s[0].1
    requires multiset(tail) == multiset(s[1..]) + multiset{x}
    requires SortedByScore(s[1..]) ==> SortedByScore(tail)
    ensures SortedByScore(s) ==> SortedByScore([s[0]] + tail)
  {
    if SortedByScore(s) {
      assert SortedByScore(s[1..]);
      forall j | 0 <= j < |tail|
        ensures tail[j].1 <= s[0].1
      {
        assert tail[j] in multiset(tail);
        if tail[j] != x {
          assert tail[j] in multiset(s[1..]);
          var i :| 0 <= i < |s[1..]| && s[1..][i] == tail[j];
          assert s[i + 1] == tail[j];
        }
      }
      var r := [s[0]] + tail;
      forall i, j | 0 <= i < j < |r|
        ensures r[i].1 >= r[j].1
      {
        if i == 0 {
          assert r[j] == tail[j - 1];
        } else {
          assert r[i] == tail[i - 1] && r[j] == tail[j - 1];
        }
      }
    }
  }

  /** `matches.sort(key=lambda x: x[1], reverse=True)`: the same entries,
      highest score first, and, the sort being stable, the first of the
      highest-scoring entries at the front. */
  function SortByScore(ms: seq<Scored>): (r: seq<Scored>)
    ensures multiset(r) == multiset(ms)
    ensures |r| == |ms|
    ensures SortedByScore(r)
    ensures forall k :: IsFirstMax(ms, k) ==> r[0] == ms[k]
  {
    if ms == [] then []
    else
      assert ms == [ms[0]] + ms[1..];
      var tail := SortByScore(ms[1..]);
      SortStepHead(ms, tail);
      var r := Insert(ms[0], tail);
      assert |r| == |multiset(r)|;
      r
  }

  /** Entry `k` has the highest score in `ms`, and every entry before it
      scores strictly less: it is the first of the best. */
  predicate IsFirstMax(ms: seq<Scored>, k: int) {
    && 0 <= k < |ms|
    && (forall j :: 0 <= j < |ms| ==> ms[j].1 <= ms[k].1)
    && (forall j :: 0 <= j < k ==> ms[j].1 < ms[k].1)
  }

  /** A non-empty sequence has a first best entry. */
  lemma {:induction false} FirstMaxExists(ms: seq<Scored>) returns (k: nat)
    requires |ms| > 0
    ensures IsFirstMax(ms, k)
  {
    if |ms| == 1 {
      k := 0;
    } else {
      var k0 := FirstMaxExists(ms[1..]);
      assert forall j :: 1 <= j < |ms| ==> ms[j] == ms[1..][j - 1];
      if ms[0].1 >= ms[k0 + 1].1 {
        k := 0;
      } else {
        k := k0 + 1;
      }
    }
  }

  /** A sequence has at most one first best entry. */
  lemma FirstMaxUnique(ms: seq<Scored>, k1: int, k2: int)
    requires IsFirstMax(ms, k1) && IsFirstMax(ms, k2)
    ensures k1 == k2
  {
    assert ms[k1].1 <= ms[k2].1 && ms[k2].1 <= ms[k1].1;
  }

  /** Past a first entry that is not the best, the first best entry of the
      rest is the same entry. */
  lemma FirstMaxOfTail(ms: seq<Scored>, k: nat)
    requires IsFirstMax(ms, k) && k > 0
    ensures IsFirstMax(ms[1..], k - 1) && ms[1..][k - 1] == ms[k]
  {
    assert forall j :: 1 <= j < |ms| ==> ms[j] == ms[1..][j - 1];
  }

  /** `Insert` leaves at the front whichever of `x` and the old head scores
      higher, and `x` on a tie. */
  lemma InsertHead(x: Scored, t: seq<Scored>)
    ensures |Insert(x, t)| > 0
    ensures Insert(x, t)[0] == if t == [] || x.1 >= t[0].1 then x else t[0]
  {
  }

  /** One step of the stable sort: when the sorted rest starts with the
      first best entry of the rest, inserting the first entry puts the first
      best entry of the whole sequence at the front. Ties go to the entry
      that came first. */
  lemma SortStepHead(ms: seq<Scored>, tail: seq<Scored>)
    requires |ms| > 0
    requires multiset(tail) == multiset(ms[1..]) && |tail| == |ms| - 1
    requires forall k :: IsFirstMax(ms[1..], k) ==> tail[0] == ms[1..][k]
    ensures forall k :: IsFirstMax(ms, k) ==> Insert(ms[0], tail)[0] == ms[k]
  {
    InsertHead(ms[0], tail);
    forall k | IsFirstMax(ms, k)
      ensures Insert(ms[0], tail)[0] == ms[k]
    {
      if k > 0 {
        FirstMaxOfTail(ms, k);
      } else if tail != [] {
        assert tail[0] in multiset(ms[1..]);
        assert tail[0] in ms;
      }
    }
  }

  /** An entry that scores below the best of `rest`, put in front of it,
      shifts the first best entry by one. */
  lemma ConsKeepsFirstMax(x: Scored, rest: seq<Scored>, k: nat)
    requires IsFirstMax(rest, k) && x.1 < rest[k].1
    ensures IsFirstMax([x] + rest, k + 1) && ([x] + rest)[k + 1] == rest[k]
  {
    var s := [x] + rest;
    assert forall j :: 1 <= j < |s| ==> s[j] == rest[j - 1];
  }

  /** Dropping the entries that scored nothing keeps a positive first best
      entry first best. */
  lemma {:induction false} PositiveKeepsFirstMax(ms: seq<Scored>, k: nat) returns (k': nat)
    requires IsFirstMax(ms, k) && ms[k].1 > 0
    ensures IsFirstMax(Positive(ms), k') && Positive(ms)[k'] == ms[k]
  {
    var rest := Positive(ms[1..]);
    assert forall j :: 1 <= j < |ms| ==> ms[j] == ms[1..][j - 1];
    if k == 0 {
      k' := 0;
      PositiveMembers(ms);
      assert Positive(ms) == [ms[0]] + rest;
      forall j | 0 <= j < |Positive(ms)|
        ensures Positive(ms)[j].1 <= ms[0].1
      {
        assert Positive(ms)[j] in ms;
      }
    } else {
      assert IsFirstMax(ms[1..], k - 1);
      var k0 := PositiveKeepsFirstMax(ms[1..], k - 1);
      if ms[0].1 > 0 {
        k' := k0 + 1;
        assert Positive(ms) == [ms[0]] + rest;
        ConsKeepsFirstMax(ms[0], rest, k0);
      } else {
        k' := k0;
        assert Positive(ms) == rest;
      }
    }
  }

  /** Row `k` of the table is the first among the rows with the highest
      score, and that score is positive. */
  predicate IsFirstBest(table: KeywordTable, q: string, k: int) {
    IsFirstMax(ScoreAll(table, q), k) && Score(table[k].1, q) > 0
  }

  /** Lines 96-108 for any table: the section at the head of the sorted
      matches, or `General` when nothing scored. That is the argmax of the
      scores with ties going to the earlier row: `General` exactly when no
      row scored, and otherwise the section of the first best row. */
  function Pick(table: KeywordTable, q: string): (t: Topic)
    ensures t == General <==> forall k :: 0 <= k < |table| ==> Score(table[k].1, q) == 0
    ensures t.About? ==> exists k :: IsFirstBest(table, q, k) && table[k].0 == t.section
  {
    var ranked := SortByScore(Positive(ScoreAll(table, q)));
    RankedHead(table, q);
    if |ranked| > 0 then About(ranked[0].0) else General
  }

  /** The sorted matches are empty exactly when no row scored, and otherwise
      start with the first best row. */
  lemma RankedHead(table: KeywordTable, q: string)
    ensures var ranked := SortByScore(Positive(ScoreAll(table, q)));
            && (ranked == [] <==> forall k :: 0 <= k < |table| ==> Score(table[k].1, q) == 0)
            && (ranked != [] ==> exists k :: IsFirstBest(table, q, k) && ranked[0] == (table[k].0, Score(table[k].1, q)))
  {
    var ms := ScoreAll(table, q);
    var matches := Positive(ms);
    PositiveMembers(ms);
    if forall k :: 0 <= k < |table| ==> Score(table[k].1, q) == 0 {
      assert matches == [];
    } else {
      var p :| 0 <= p < |table| && Score(table[p].1, q) > 0;
      var k := FirstMaxExists(ms);
      assert ms[p].1 <= ms[k].1;
      var k' := PositiveKeepsFirstMax(ms, k);
      assert IsFirstBest(table, q, k);
    }
  }

  /** Only one row is first best, so it is the one `Pick` answers. */
  lemma PickIsFirstBest(table: KeywordTable, q: string, k: int)
    requires IsFirstBest(table, q, k)
    ensures Pick(table, q) == About(table[k].0)
  {
    var t := Pick(table, q);
    assert t != General by {
      assert Score(table[k].1, q) > 0;
    }
    var k2 :| IsFirstBest(table, q, k2) && table[k2].0 == t.section;
    FirstMaxUnique(ScoreAll(table, q), k, k2);
  }

  /** Position of a section's row in `SectionKeywords`. */
  function Rank(s: Section): (k: nat)
    ensures k < |SectionKeywords| && SectionKeywords[k].0 == s
  {
    match s
    case Contact => 0
    case Experience => 1
    case Skills => 2
    case Education => 3
    case Certifications => 4
    case Projects => 5
    case Summary => 6
  }

  /** The score line 99 gives section `s` for the lower-cased question `q`. */
  function SectionScore(s: Section, q: string): nat {
    Score(SectionKeywords[Rank(s)].1, q)
  }

  /** A section's score lies between 0 and the number of its keywords. */
  lemma SectionScoreBounds(s: Section, q: string)
    ensures 0 <= SectionScore(s, q) <= |SectionKeywords[Rank(s)].1|
  {
  }

  /** Section `s` has the highest score, that score is positive, and every
      section declared before it scores strictly less. */
  predicate IsTopSection(s: Section, q: string) {
    && SectionScore(s, q) > 0
    && (forall t :: SectionScore(t, q) <= SectionScore(s, q))
    && (forall t :: Rank(t) < Rank(s) ==> SectionScore(t, q) < SectionScore(s, q))
  }

  /** Every row of `SectionKeywords` is the row of its own section, and its
      entry in `ScoreAll` carries that section's score. */
  lemma RowsAreRanked(q: string)
    ensures forall k :: 0 <= k < |SectionKeywords| ==> Rank(SectionKeywords[k].0) == k
    ensures forall t :: ScoreAll(SectionKeywords, q)[Rank(t)].1 == SectionScore(t, q)
  {
  }

  /** A top section's row is the first best row. */
  lemma TopSectionIsFirstBest(q: string, s: Section)
    requires IsTopSection(s, q)
    ensures IsFirstBest(SectionKeywords, q, Rank(s))
  {
    var ms := ScoreAll(SectionKeywords, q);
    RowsAreRanked(q);
    forall j | 0 <= j < |ms|
      ensures ms[j].1 <= ms[Rank(s)].1 && (j < Rank(s) ==> ms[j].1 < ms[Rank(s)].1)
    {
      var t := SectionKeywords[j].0;
      assert Rank(t) == j;
      assert ms[j].1 == SectionScore(t, q);
    }
  }

  /** The first best row belongs to a top section. */
  lemma FirstBestIsTopSection(q: string, s: Section)
    requires IsFirstBest(SectionKeywords, q, Rank(s))
    ensures IsTopSection(s, q)
  {
    var ms := ScoreAll(SectionKeywords, q);
    RowsAreRanked(q);
    forall t
      ensures SectionScore(t, q) <= SectionScore(s, q)
      ensures Rank(t) < Rank(s) ==> SectionScore(t, q) < SectionScore(s, q)
    {
      assert ms[Rank(t)].1 == SectionScore(t, q);
    }
  }

  /** No section scores: no keyword of the table occurs in `q`. */
  predicate NothingScores(q: string) {
    forall s :: SectionScore(s, q) == 0
  }

  /** Over `SectionKeywords`, `Pick` answers `General` exactly when no
      section scored. */
  lemma PickGeneral(q: string)
    ensures Pick(SectionKeywords, q) == General <==> NothingScores(q)
  {
    RowsAreRanked(q);
    if NothingScores(q) {
      forall k | 0 <= k < |SectionKeywords|
        ensures Score(SectionKeywords[k].1, q) == 0
      {
        assert SectionScore(SectionKeywords[k].0, q) == 0;
      }
    }
  }

  /** Over `SectionKeywords`, a picked section is a top section. */
  lemma PickTop(q: string)
    ensures Pick(SectionKeywords, q).About? ==> IsTopSection(Pick(SectionKeywords, q).section, q)
  {
    var t := Pick(SectionKeywords, q);
    if t.About? {
      var k :| IsFirstBest(SectionKeywords, q, k) && SectionKeywords[k].0 == t.section;
      RowsAreRanked(q);
      FirstBestIsTopSection(q, t.section);
    }
  }

  /** `find_relevant_section`: the pick over `SectionKeywords` for the
      lower-cased question. It answers `General` exactly when no keyword of
      the table occurs in the lower-cased question, and otherwise a top
      section: the highest-scoring one and, among equals, the one declared
      first. */
  function FindRelevantSection(question: string): (t: Topic)
    ensures t == General <==> NothingScores(Lower(question))
    ensures t.About? ==> IsTopSection(t.section, Lower(question))
  {
    PickGeneral(Lower(question));
    PickTop(Lower(question));
    Pick(SectionKeywords, Lower(question))
  }

  /** A top section is the one `find_relevant_section` picks. */
  lemma TopSectionIsPicked(question: string, s: Section)
    requires IsTopSection(s, Lower(question))
    ensures FindRelevantSection(question) == About(s)
  {
    var q := Lower(question);
    TopSectionIsFirstBest(q, s);
    PickIsFirstBest(SectionKeywords, q, Rank(s));
  }
}
