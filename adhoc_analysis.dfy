/**
 * The two read-only queries over the mention graph: the journal that
 * mentions the most different drugs, and the drugs related to a target drug
 * through journals where both are mentioned by PubMed publications only.
 * The graph is a sequence value, so neither query can change it.
 */
module AdhocAnalysis {
  import opened Wrappers
  import opened Text

  /** One mention as loaded from the graph file; a field may be missing (`None`). */
  datatype GraphMention = GraphMention(drug: Option<string>, journal: Option<string>, sourceType: Option<string>)

  /** Python truthiness of a string field: present and non-empty. */
  predicate Present(field: Option<string>)
  {
    field.Some? && field.value != ""
  }

  // ===== most different drugs per journal =====================================

  /** The mention takes part in the journal -> drugs table: it has a journal and a drug. */
  predicate Counted(m: GraphMention)
  {
    Present(m.journal) && Present(m.drug)
  }

  /** Journals of counted mentions, without repeats, in order of first appearance. */
  function JournalOrder(graph: seq<GraphMention>): (order: seq<string>)
    ensures forall a, b :: 0 <= a < b < |order| ==> order[a] != order[b]
    decreases |graph|
  {
    if graph == [] then []
    else
      var n := |graph| - 1;
      var order := JournalOrder(graph[..n]);
      var m := graph[n];
      if Counted(m) && m.journal.value !in order then order + [m.journal.value] else order
  }

  /** The distinct drug names the counted mentions pair with `journal`. */
  function DrugsIn(graph: seq<GraphMention>, journal: string): (drugs: set<string>)
    decreases |graph|
  {
    if graph == [] then {}
    else
      var n := |graph| - 1;
      var m := graph[n];
      DrugsIn(graph[..n], journal) + (if Counted(m) && m.journal.value == journal then {m.drug.value} else {})
  }

  /** Mention `m` pairs drug `drug` with journal `journal`. */
  predicate Pairs(m: GraphMention, journal: string, drug: string)
  {
    Counted(m) && m.journal.value == journal && m.drug.value == drug
  }

  /** A journal is in the table iff some counted mention names it. */
  lemma {:induction false} JournalOrderSpec(graph: seq<GraphMention>, journal: string)
    ensures journal in JournalOrder(graph) <==>
      exists i :: 0 <= i < |graph| && Counted(graph[i]) && graph[i].journal.value == journal
    decreases |graph|
  {
    if graph != [] {
      var n := |graph| - 1;
      JournalOrderSpec(graph[..n], journal);
      if i :| 0 <= i < n && Counted(graph[..n][i]) && graph[..n][i].journal.value == journal {
        assert graph[i] == graph[..n][i];
      }
      if i :| 0 <= i < |graph| && Counted(graph[i]) && graph[i].journal.value == journal {
        if i < n {
          assert graph[..n][i] == graph[i];
        }
      }
    }
  }

  /** A drug is in a journal's set iff some counted mention pairs the two. */
  lemma {:induction false} DrugsInSpec(graph: seq<GraphMention>, journal: string, drug: string)
    ensures drug in DrugsIn(graph, journal) <==> exists i :: 0 <= i < |graph| && Pairs(graph[i], journal, drug)
    decreases |graph|
  {
    if graph != [] {
      var n := |graph| - 1;
      DrugsInSpec(graph[..n], journal, drug);
      if i :| 0 <= i < n && Pairs(graph[..n][i], journal, drug) {
        assert graph[i] == graph[..n][i];
      }
      if i :| 0 <= i < |graph| && Pairs(graph[i], journal, drug) {
        if i < n {
          assert graph[..n][i] == graph[i];
        }
      }
    }
  }

  /** A counted mention of journal `x` comes before every counted mention of journal `y`. */
  ghost predicate SeenBefore(graph: seq<GraphMention>, x: string, y: string)
  {
    exists i :: 0 <= i < |graph| && Counted(graph[i]) && graph[i].journal.value == x &&
      forall k :: 0 <= k <= i ==> !(Counted(graph[k]) && graph[k].journal.value == y)
  }

  lemma {:induction false} JournalOrderBefore(graph: seq<GraphMention>, a: nat, c: nat)
    requires a < c < |JournalOrder(graph)|
    ensures SeenBefore(graph, JournalOrder(graph)[a], JournalOrder(graph)[c])
    decreases |graph|
  {
    var n := |graph| - 1;
    var front := graph[..n];
    var order, prior := JournalOrder(graph), JournalOrder(front);
    var x, y := order[a], order[c];
    if c < |prior| {
      assert order[a] == prior[a] && order[c] == prior[c];
      JournalOrderBefore(front, a, c);
      var i :| 0 <= i < |front| && Counted(front[i]) && front[i].journal.value == x &&
        forall k :: 0 <= k <= i ==> !(Counted(front[k]) && front[k].journal.value == y);
      assert graph[i] == front[i];
      forall k | 0 <= k <= i ensures !(Counted(graph[k]) && graph[k].journal.value == y) {
        assert graph[k] == front[k];
      }
    } else {
      assert order == prior + [y] && order[a] == prior[a] && y !in prior;
      JournalOrderSpec(front, x);
      JournalOrderSpec(front, y);
      var i :| 0 <= i < |front| && Counted(front[i]) && front[i].journal.value == x;
      assert graph[i] == front[i];
      forall k | 0 <= k <= i ensures !(Counted(graph[k]) && graph[k].journal.value == y) {
        assert graph[k] == front[k];
      }
    }
  }

  /** Two journals cannot each be seen before the other. */
  lemma SeenBeforeAsymmetric(graph: seq<GraphMention>, x: string, y: string)
    ensures !(SeenBefore(graph, x, y) && SeenBefore(graph, y, x))
  {
    if SeenBefore(graph, x, y) && SeenBefore(graph, y, x) {
      assert false;
    }
  }

  /**
   * The journal order is the order of first appearance in the graph: of two
   * listed journals, one comes first iff a counted mention of it precedes
   * every counted mention of the other. This is the order the tie-break uses.
   */
  lemma JournalOrderFirstAppearance(graph: seq<GraphMention>, a: nat, c: nat)
    requires a < |JournalOrder(graph)| && c < |JournalOrder(graph)| && a != c
    ensures a < c <==> SeenBefore(graph, JournalOrder(graph)[a], JournalOrder(graph)[c])
  {
    var order := JournalOrder(graph);
    if c < a {
      JournalOrderBefore(graph, c, a);
      SeenBeforeAsymmetric(graph, order[a], order[c]);
    } else {
      JournalOrderBefore(graph, a, c);
    }
  }

  /** Every journal in the table has at least one drug. */
  lemma JournalHasDrug(graph: seq<GraphMention>, journal: string)
    requires journal in JournalOrder(graph)
    ensures |DrugsIn(graph, journal)| >= 1
  {
    JournalOrderSpec(graph, journal);
    var i :| 0 <= i < |graph| && Counted(graph[i]) && graph[i].journal.value == journal;
    DrugsInSpec(graph, journal, graph[i].drug.value);
    assert Pairs(graph[i], journal, graph[i].drug.value);
  }

  /** A journal not yet in the table has no drugs. */
  lemma AbsentJournalNoDrugs(graph: seq<GraphMention>, journal: string)
    requires journal !in JournalOrder(graph)
    ensures DrugsIn(graph, journal) == {}
  {
    JournalOrderSpec(graph, journal);
    forall d ensures d !in DrugsIn(graph, journal) {
      DrugsInSpec(graph, journal, d);
    }
  }

  /**
   * `journal` leads with `count` distinct drugs: no journal has more, and every
   * journal first seen before it has strictly fewer (first seen wins a tie).
   */
  ghost predicate MostDiverse(graph: seq<GraphMention>, journal: string, count: nat)
  {
    var order := JournalOrder(graph);
    && journal in order
    && count == |DrugsIn(graph, journal)|
    && (forall a :: 0 <= a < |order| ==> |DrugsIn(graph, order[a])| <= count)
    && (forall a, c :: 0 <= a < c < |order| && order[c] == journal ==> |DrugsIn(graph, order[a])| < count)
  }

  /** The tie-break makes the leader unique. */
  lemma LeaderUnique(graph: seq<GraphMention>, j1: string, c1: nat, j2: string, c2: nat)
    requires MostDiverse(graph, j1, c1) && MostDiverse(graph, j2, c2)
    ensures j1 == j2 && c1 == c2
  {
    var order := JournalOrder(graph);
    var b1 :| 0 <= b1 < |order| && order[b1] == j1;
    var b2 :| 0 <= b2 < |order| && order[b2] == j2;
    assert |DrugsIn(graph, order[b1])| <= c2 && |DrugsIn(graph, order[b2])| <= c1;
  }

  /**
   * The first loop of `find_journal_with_most_different_drugs`: the
   * journal -> set of drugs table, with its keys in insertion order.
   */
  method CollectJournalDrugs(graph: seq<GraphMention>) returns (order: seq<string>, journalDrugs: map<string, set<string>>)
    ensures order == JournalOrder(graph)
    ensures forall j :: j in journalDrugs <==> j in order
    ensures forall j :: j in journalDrugs ==> journalDrugs[j] == DrugsIn(graph, j)
  {
    order, journalDrugs := [], map[];
    for i := 0 to |graph|
      invariant order == JournalOrder(graph[..i])
      invariant forall j :: j in journalDrugs <==> j in order
      invariant forall j :: j in journalDrugs ==> journalDrugs[j] == DrugsIn(graph[..i], j)
    {
      var m := graph[i];
      JournalTableStep(graph, i);
      if m.journal.Some? && m.journal.value != "" && m.drug.Some? && m.drug.value != "" {
        var j := m.journal.value;
        if j in journalDrugs {
          journalDrugs := journalDrugs[j := journalDrugs[j] + {m.drug.value}];
        } else {
          order := order + [j];
          journalDrugs := journalDrugs[j := {m.drug.value}];
        }
      }
    }
    assert graph[..|graph|] == graph;
  }

  lemma JournalTableStep(graph: seq<GraphMention>, i: nat)
    requires i < |graph|
    ensures JournalOrder(graph[..i + 1]) ==
      if Counted(graph[i]) && graph[i].journal.value !in JournalOrder(graph[..i])
      then JournalOrder(graph[..i]) + [graph[i].journal.value]
      else JournalOrder(graph[..i])
    ensures forall j :: (DrugsIn(graph[..i + 1], j) ==
      DrugsIn(graph[..i], j) + (if Counted(graph[i]) && graph[i].journal.value == j then {graph[i].drug.value} else {}))
    ensures Counted(graph[i]) && graph[i].journal.value !in JournalOrder(graph[..i]) ==>
      DrugsIn(graph[..i], graph[i].journal.value) == {}
  {
    assert graph[..i + 1][..i] == graph[..i];
    if Counted(graph[i]) && graph[i].journal.value !in JournalOrder(graph[..i]) {
      AbsentJournalNoDrugs(graph[..i], graph[i].journal.value);
    }
  }

  /** `find_journal_with_most_different_drugs`. */
  method FindJournalWithMostDifferentDrugs(graph: seq<GraphMention>) returns (journal: Option<string>, count: nat)
    ensures journal.None? <==> JournalOrder(graph) == []
    ensures journal.None? ==> count == 0
    ensures journal.Some? ==> count >= 1 && MostDiverse(graph, journal.value, count)
  {
    if graph == [] {
      return None, 0;
    }
    var order, journalDrugs := CollectJournalDrugs(graph);
    assert order != [] ==> order[0] in journalDrugs;
    if journalDrugs == map[] {
      return None, 0;
    }
    assert order != [] by {
      var j :| j in journalDrugs;
    }
    forall j | j in order ensures |journalDrugs[j]| >= 1 {
      JournalHasDrug(graph, j);
    }
    ghost var b;
    journal, count, b := FirstLargest(order, journalDrugs);
    LeaderFromTable(graph, order, journalDrugs, b, count);
  }

  /**
   * The second loop: a running maximum over the journals in insertion order,
   * replaced only on a strictly greater count.
   */
  method FirstLargest(order: seq<string>, journalDrugs: map<string, set<string>>)
    returns (journal: Option<string>, count: nat, ghost b: int)
    requires order != []
    requires forall j :: j in order ==> j in journalDrugs && |journalDrugs[j]| >= 1
    ensures 0 <= b < |order| && journal == Some(order[b]) && count == |journalDrugs[order[b]]|
    ensures forall a :: 0 <= a < |order| ==> |journalDrugs[order[a]]| <= count
    ensures forall a :: 0 <= a < b ==> |journalDrugs[order[a]]| < count
  {
    journal, count, b := None, 0, 0;
    for i := 0 to |order|
      invariant 0 <= b <= i
      invariant i == 0 ==> journal == None && count == 0
      invariant i > 0 ==> b < i && journal == Some(order[b]) && count == |journalDrugs[order[b]]|
      invariant forall a :: 0 <= a < i ==> |journalDrugs[order[a]]| <= count
      invariant forall a :: 0 <= a < b ==> |journalDrugs[order[a]]| < count
    {
      var numDifferentDrugs := |journalDrugs[order[i]]|;
      if numDifferentDrugs > count {
        count := numDifferentDrugs;
        journal := Some(order[i]);
        b := i;
      }
    }
  }

  lemma LeaderFromTable(graph: seq<GraphMention>, order: seq<string>, journalDrugs: map<string, set<string>>,
                        b: int, count: nat)
    requires order == JournalOrder(graph)
    requires forall j :: j in journalDrugs <==> j in order
    requires forall j :: j in journalDrugs ==> journalDrugs[j] == DrugsIn(graph, j)
    requires 0 <= b < |order| && count == |journalDrugs[order[b]]|
    requires forall a :: 0 <= a < |order| ==> |journalDrugs[order[a]]| <= count
    requires forall a :: 0 <= a < b ==> |journalDrugs[order[a]]| < count
    ensures MostDiverse(graph, order[b], count)
  {
    assert order[b] in order;
  }

  // ===== drugs related through PubMed-only journals ===========================

  /** The mention takes part in the drug -> journal -> sources table. */
  predicate Indexed(m: GraphMention)
  {
    Present(m.drug) && Present(m.journal) && Present(m.sourceType)
  }

  /** Mention `m` records source `source` for drug key `drug` (upper case) in `journal`. */
  predicate Observed(m: GraphMention, drug: string, journal: string, source: string)
  {
    Indexed(m) && Upper(m.drug.value) == drug && m.journal.value == journal && m.sourceType.value == source
  }

  /** The drug keys of the table: the upper-cased names of indexed mentions. */
  function DrugKeys(graph: seq<GraphMention>): (keys: set<string>)
    decreases |graph|
  {
    if graph == [] then {}
    else
      var n := |graph| - 1;
      var m := graph[n];
      DrugKeys(graph[..n]) + (if Indexed(m) then {Upper(m.drug.value)} else {})
  }

  /** The source types observed for drug key `drug` in `journal`. */
  function Sources(graph: seq<GraphMention>, drug: string, journal: string): (sources: set<string>)
    decreases |graph|
  {
    if graph == [] then {}
    else
      var n := |graph| - 1;
      var m := graph[n];
      Sources(graph[..n], drug, journal) +
        (if Indexed(m) && Upper(m.drug.value) == drug && m.journal.value == journal then {m.sourceType.value} else {})
  }

  predicate PubmedOnly(sources: set<string>)
  {
    "pubmed" in sources && "clinical_trial" !in sources
  }

  /** `journal` is PubMed-only for drug key `drug`: seen there from PubMed and never from a clinical trial. */
  ghost predicate PubmedOnlyFor(graph: seq<GraphMention>, drug: string, journal: string)
  {
    PubmedOnly(Sources(graph, drug, journal))
  }

  ghost predicate SharePubmedOnlyJournal(graph: seq<GraphMention>, target: string, other: string)
  {
    exists journal :: PubmedOnlyFor(graph, target, journal) && PubmedOnlyFor(graph, other, journal)
  }

  /**
   * What `find_related_drugs_by_pubmed_journals` returns: every other drug key
   * sharing a journal that is PubMed-only for both, capitalized.
   */
  ghost function Related(graph: seq<GraphMention>, target: string): set<string>
  {
    if target == "" then {}
    else
      set other | other in DrugKeys(graph) && other != Upper(target) &&
                  SharePubmedOnlyJournal(graph, Upper(target), other) :: Capitalize(other)
  }

  // ----- the nested table the source builds --------------------------------------

  type SourceIndex = map<string, map<string, set<string>>>

  /** `drug_journal_sources[drug.upper()][journal].add(source_type)` for one mention. */
  function Record(index: SourceIndex, m: GraphMention): SourceIndex
  {
    if Indexed(m) then
      var d := Upper(m.drug.value);
      var journals := if d in index then index[d] else map[];
      var sources := if m.journal.value in journals then journals[m.journal.value] else {};
      index[d := journals[m.journal.value := sources + {m.sourceType.value}]]
    else
      index
  }

  function BuildIndex(graph: seq<GraphMention>): SourceIndex
    decreases |graph|
  {
    if graph == [] then map[] else Record(BuildIndex(graph[..|graph| - 1]), graph[|graph| - 1])
  }

  /** A source type is recorded for a drug key and a journal iff some indexed mention carries all three. */
  lemma {:induction false} SourcesSpec(graph: seq<GraphMention>, drug: string, journal: string, source: string)
    ensures source in Sources(graph, drug, journal) <==>
      exists i :: 0 <= i < |graph| && Observed(graph[i], drug, journal, source)
    decreases |graph|
  {
    if graph != [] {
      var n := |graph| - 1;
      SourcesSpec(graph[..n], drug, journal, source);
      if i :| 0 <= i < n && Observed(graph[..n][i], drug, journal, source) {
        assert graph[i] == graph[..n][i];
      }
      if i :| 0 <= i < |graph| && Observed(graph[i], drug, journal, source) {
        if i < n {
          assert graph[..n][i] == graph[i];
        }
      }
    }
  }

  lemma {:induction false} SourcesHaveKey(graph: seq<GraphMention>, drug: string, journal: string)
    requires Sources(graph, drug, journal) != {}
    ensures drug in DrugKeys(graph)
    decreases |graph|
  {
    var n := |graph| - 1;
    if Sources(graph[..n], drug, journal) != {} {
      SourcesHaveKey(graph[..n], drug, journal);
    }
  }

  /** The nested table holds exactly the drug keys, and per journal exactly the observed sources. */
  lemma {:induction false} BuildIndexAt(graph: seq<GraphMention>, drug: string, journal: string)
    ensures drug in BuildIndex(graph) <==> drug in DrugKeys(graph)
    ensures drug in BuildIndex(graph) ==>
      (journal in BuildIndex(graph)[drug] <==> Sources(graph, drug, journal) != {})
    ensures drug in BuildIndex(graph) && journal in BuildIndex(graph)[drug] ==>
      BuildIndex(graph)[drug][journal] == Sources(graph, drug, journal)
    decreases |graph|
  {
    if graph != [] {
      var n := |graph| - 1;
      var front, m := graph[..n], graph[n];
      BuildIndexAt(front, drug, journal);
      if drug !in BuildIndex(front) && Sources(front, drug, journal) != {} {
        SourcesHaveKey(front, drug, journal);
      }
    }
  }

  // ----- the query -----------------------------------------------------------------

  /** The journals of `journals` where the sources are PubMed-only. */
  function PubmedOnlyJournals(journals: map<string, set<string>>): set<string>
  {
    set j | j in journals && PubmedOnly(journals[j])
  }

  /** Some journal of `targetJournals` is also PubMed-only in `journals`. */
  predicate SharesPubmedOnly(journals: map<string, set<string>>, targetJournals: set<string>)
  {
    exists j :: j in targetJournals && j in journals && PubmedOnly(journals[j])
  }

  /** The result computed from the nested table, step by step as the source does. */
  function RelatedFromIndex(index: SourceIndex, target: string): set<string>
  {
    var targetJournals := if target in index then PubmedOnlyJournals(index[target]) else {};
    set other | other in index && other != target && SharesPubmedOnly(index[other], targetJournals) :: Capitalize(other)
  }

  /** `find_related_drugs_by_pubmed_journals`. */
  method FindRelatedDrugsByPubmedJournals(graph: seq<GraphMention>, targetDrug: string) returns (related: set<string>)
    ensures related == Related(graph, targetDrug)
  {
    if graph == [] || targetDrug == "" {
      return {};
    }
    var targetDrugUpper := Upper(targetDrug);

    // Step 1: drug (upper case) -> journal -> source types.
    var drugJournalSources: SourceIndex := map[];
    for i := 0 to |graph|
      invariant drugJournalSources == BuildIndex(graph[..i])
    {
      var m := graph[i];
      assert graph[..i + 1][..i] == graph[..i];
      if m.drug.Some? && m.drug.value != "" && m.journal.Some? && m.journal.value != "" &&
         m.sourceType.Some? && m.sourceType.value != "" {
        var drug := Upper(m.drug.value);
        var journals := if drug in drugJournalSources then drugJournalSources[drug] else map[];
        var sources := if m.journal.value in journals then journals[m.journal.value] else {};
        drugJournalSources := drugJournalSources[drug := journals[m.journal.value := sources + {m.sourceType.value}]];
      }
    }
    assert graph[..|graph|] == graph;
    RelatedViaIndex(graph, targetDrug);

    // Step 2: the target's PubMed-only journals.
    var targetPubmedOnlyJournals: set<string> := {};
    if targetDrugUpper in drugJournalSources {
      targetPubmedOnlyJournals := CollectPubmedOnly(drugJournalSources[targetDrugUpper]);
    }
    if targetPubmedOnlyJournals == {} {
      return {};
    }

    // Step 3: other drugs with a shared journal that is PubMed-only for them too.
    related := {};
    var pending := drugJournalSources.Keys;
    while pending != {}
      invariant pending <= drugJournalSources.Keys
      invariant related == set other | other in drugJournalSources.Keys - pending && other != targetDrugUpper &&
        SharesPubmedOnly(drugJournalSources[other], targetPubmedOnlyJournals) :: Capitalize(other)
      decreases pending
    {
      var otherDrugUpper :| otherDrugUpper in pending;
      if otherDrugUpper != targetDrugUpper {
        var shared := CollectShared(drugJournalSources[otherDrugUpper], targetPubmedOnlyJournals);
        if shared != {} {
          related := related + {Capitalize(otherDrugUpper)};
        }
      }
      pending := pending - {otherDrugUpper};
    }
  }

  /** Step 2's loop: the journals whose sources contain "pubmed" and not "clinical_trial". */
  method CollectPubmedOnly(journals: map<string, set<string>>) returns (result: set<string>)
    ensures result == PubmedOnlyJournals(journals)
  {
    result := {};
    var pending := journals.Keys;
    while pending != {}
      invariant pending <= journals.Keys
      invariant result == set j | j in journals.Keys - pending && PubmedOnly(journals[j])
      decreases pending
    {
      var journal :| journal in pending;
      if "pubmed" in journals[journal] && "clinical_trial" !in journals[journal] {
        result := result + {journal};
      }
      pending := pending - {journal};
    }
  }

  /** Step 3's inner loop: the target journals where the other drug is PubMed-only as well. */
  method CollectShared(journals: map<string, set<string>>, targetJournals: set<string>) returns (shared: set<string>)
    ensures shared != {} <==> SharesPubmedOnly(journals, targetJournals)
    ensures forall j :: j in shared <==> j in targetJournals && j in journals && PubmedOnly(journals[j])
  {
    shared := {};
    var pending := targetJournals;
    while pending != {}
      invariant pending <= targetJournals
      invariant forall j :: j in shared <==> j in targetJournals - pending && j in journals && PubmedOnly(journals[j])
      decreases pending
    {
      var journal :| journal in pending;
      if journal in journals {
        var sources := journals[journal];
        if "pubmed" in sources && "clinical_trial" !in sources {
          shared := shared + {journal};
        }
      }
      pending := pending - {journal};
    }
    if shared != {} {
      var j :| j in shared;
    }
  }

  /** The step-by-step computation over the nested table agrees with the definition over the graph. */
  lemma RelatedViaIndex(graph: seq<GraphMention>, target: string)
    requires target != ""
    ensures Related(graph, target) == RelatedFromIndex(BuildIndex(graph), Upper(target))
  {
    var index, t := BuildIndex(graph), Upper(target);
    var targetJournals := if t in index then PubmedOnlyJournals(index[t]) else {};
    forall j ensures j in targetJournals <==> PubmedOnlyFor(graph, t, j) {
      BuildIndexAt(graph, t, j);
      if PubmedOnlyFor(graph, t, j) {
        SourcesHaveKey(graph, t, j);
      }
    }
    forall other | other in index
      ensures SharesPubmedOnly(index[other], targetJournals) <==> SharePubmedOnlyJournal(graph, t, other)
    {
      if SharesPubmedOnly(index[other], targetJournals) {
        var j :| j in targetJournals && j in index[other] && PubmedOnly(index[other][j]);
        BuildIndexAt(graph, other, j);
        assert PubmedOnlyFor(graph, t, j) && PubmedOnlyFor(graph, other, j);
      }
      if SharePubmedOnlyJournal(graph, t, other) {
        var j :| PubmedOnlyFor(graph, t, j) && PubmedOnlyFor(graph, other, j);
        BuildIndexAt(graph, other, j);
        assert j in targetJournals;
      }
    }
    forall other ensures other in index <==> other in DrugKeys(graph) {
      BuildIndexAt(graph, other, "");
    }
  }

  // ----- properties of the query ---------------------------------------------------

  lemma {:induction false} DrugKeysAreUpper(graph: seq<GraphMention>, drug: string)
    requires drug in DrugKeys(graph)
    ensures Upper(drug) == drug
    decreases |graph|
  {
    var n := |graph| - 1;
    if drug in DrugKeys(graph[..n]) {
      DrugKeysAreUpper(graph[..n], drug);
    } else {
      UpperIdempotent(graph[n].drug.value);
    }
  }

  /**
   * A drug key other than the target's is reported, capitalized, iff some
   * journal is PubMed-only for both; an empty target yields nothing.
   */
  lemma RelatedMembership(graph: seq<GraphMention>, target: string, other: string)
    requires Upper(other) == other
    ensures Capitalize(other) in Related(graph, target) <==>
      target != "" && other in DrugKeys(graph) && other != Upper(target) &&
      SharePubmedOnlyJournal(graph, Upper(target), other)
  {
    if Capitalize(other) in Related(graph, target) {
      var k :| k in DrugKeys(graph) && k != Upper(target) && SharePubmedOnlyJournal(graph, Upper(target), k) &&
               Capitalize(k) == Capitalize(other);
      DrugKeysAreUpper(graph, k);
      CapitalizeInjectiveOnKeys(k, other);
    }
  }

  /** The target itself is never reported, whatever the case of its spelling. */
  lemma TargetNotRelated(graph: seq<GraphMention>, target: string)
    ensures Capitalize(Upper(target)) !in Related(graph, target)
  {
    UpperIdempotent(target);
    RelatedMembership(graph, target, Upper(target));
  }

  /** A target without a PubMed-only journal has no related drugs. */
  lemma NoPubmedOnlyJournalNoRelated(graph: seq<GraphMention>, target: string)
    requires forall journal :: !PubmedOnlyFor(graph, Upper(target), journal)
    ensures Related(graph, target) == {}
  {
  }

  /** The target is matched case-insensitively. */
  lemma RelatedCaseInsensitive(graph: seq<GraphMention>, t1: string, t2: string)
    requires Upper(t1) == Upper(t2)
    ensures Related(graph, t1) == Related(graph, t2)
  {
  }

  /** The drug keys and every source set skip a mention missing its drug, journal or source type. */
  lemma {:induction false} IndexSkipsIncomplete(a: seq<GraphMention>, m: GraphMention, b: seq<GraphMention>,
                                                drug: string, journal: string)
    requires !Indexed(m)
    ensures DrugKeys(a + [m] + b) == DrugKeys(a + b)
    ensures Sources(a + [m] + b, drug, journal) == Sources(a + b, drug, journal)
    decreases |b|
  {
    var g, h := a + [m] + b, a + b;
    if b == [] {
      assert g[..|g| - 1] == a && h == a;
    } else {
      var n := |b| - 1;
      IndexSkipsIncomplete(a, m, b[..n], drug, journal);
      assert g[..|g| - 1] == a + [m] + b[..n] && g[|g| - 1] == b[n];
      assert h[..|h| - 1] == a + b[..n] && h[|h| - 1] == b[n];
    }
  }

  /** A mention missing its drug, journal or source type, wherever it sits, changes nothing. */
  lemma RelatedIgnoresIncomplete(a: seq<GraphMention>, m: GraphMention, b: seq<GraphMention>, target: string)
    requires !Indexed(m)
    ensures Related(a + [m] + b, target) == Related(a + b, target)
  {
    var g, h := a + [m] + b, a + b;
    IndexSkipsIncomplete(a, m, b, "", "");
    if target != "" {
      var t := Upper(target);
      forall other ensures SharePubmedOnlyJournal(g, t, other) <==> SharePubmedOnlyJournal(h, t, other) {
        if j :| PubmedOnlyFor(g, t, j) && PubmedOnlyFor(g, other, j) {
          IndexSkipsIncomplete(a, m, b, t, j);
          IndexSkipsIncomplete(a, m, b, other, j);
          assert PubmedOnlyFor(h, t, j) && PubmedOnlyFor(h, other, j);
        }
        if j :| PubmedOnlyFor(h, t, j) && PubmedOnlyFor(h, other, j) {
          IndexSkipsIncomplete(a, m, b, t, j);
          IndexSkipsIncomplete(a, m, b, other, j);
          assert PubmedOnlyFor(g, t, j) && PubmedOnlyFor(g, other, j);
        }
      }
    }
  }

  /** With two journals, the first seen leads when the second has no more drugs. */
  lemma FirstOfTwoLeads(graph: seq<GraphMention>, x: string, y: string)
    requires JournalOrder(graph) == [x, y]
    requires |DrugsIn(graph, y)| <= |DrugsIn(graph, x)|
    ensures MostDiverse(graph, x, |DrugsIn(graph, x)|)
  {
    var order := JournalOrder(graph);
    assert order[0] != order[1];
  }

  /** A worked case: two journals with one distinct drug each. */
  const TieGraph: seq<GraphMention> :=
    [GraphMention(Some("ATROPINE"), Some("J1"), None), GraphMention(Some("ETHANOL"), Some("J2"), None)]

  /** The journal table of the worked case: J1 then J2, one drug each. */
  lemma TieGraphTable()
    ensures JournalOrder(TieGraph) == ["J1", "J2"]
    ensures DrugsIn(TieGraph, "J1") == {"ATROPINE"} && DrugsIn(TieGraph, "J2") == {"ETHANOL"}
  {
    var g := TieGraph;
    var a, e := g[0], g[1];
    var g1 := [a];
    assert g[..1] == g1 && g1[..0] == [];
    assert Counted(a) && Counted(e);
    assert "J1" != "J2" by { assert "J1"[1] != "J2"[1]; }
    assert JournalOrder(g1[..0]) == [] && DrugsIn(g1[..0], "J1") == {} && DrugsIn(g1[..0], "J2") == {};
    assert JournalOrder(g1) == ["J1"];
    assert "J2" !in ["J1"];
    assert DrugsIn(g1, "J1") == {"ATROPINE"} && DrugsIn(g1, "J2") == {};
  }

  /** In the worked case the two journals tie, and the journal seen first leads. */
  lemma FirstSeenWinsTie()
    ensures MostDiverse(TieGraph, "J1", 1)
  {
    TieGraphTable();
    FirstOfTwoLeads(TieGraph, "J1", "J2");
  }

  /** In the same tie, the journal seen second does not lead. */
  lemma SecondSeenLosesTie()
    ensures !MostDiverse(TieGraph, "J2", 1)
  {
    FirstSeenWinsTie();
    if MostDiverse(TieGraph, "J2", 1) {
      LeaderUnique(TieGraph, "J1", 1, "J2", 1);
    }
  }

  /**
   * A worked case: B and X are mentioned in J1 through PubMed only; Y is
   * mentioned there through a clinical trial, so J1 is not PubMed-only for Y.
   */
  const RelatedGraph: seq<GraphMention> := [
    GraphMention(Some("B"), Some("J1"), Some("pubmed")),
    GraphMention(Some("X"), Some("J1"), Some("pubmed")),
    GraphMention(Some("Y"), Some("J1"), Some("clinical_trial"))
  ]

  /** The worked case: target `b` (matched case-insensitively) is related to exactly `X`. */
  lemma RelatedExample()
    ensures Related(RelatedGraph, "b") == {"X"}
  {
    var g := RelatedGraph;
    var b, x, y := g[0], g[1], g[2];
    var g1, g2 := [b], [b, x];
    assert g[..2] == g2 && g2[..1] == g1 && g1[..0] == [];
    assert "B" != "X" && "B" != "Y" && "X" != "Y" by {
      assert "B"[0] != "X"[0] && "B"[0] != "Y"[0] && "X"[0] != "Y"[0];
    }
    assert "pubmed" != "clinical_trial" by { assert "pubmed"[0] != "clinical_trial"[0]; }
    assert Upper("b") == "B" && Upper("B") == "B" && Upper("X") == "X" && Upper("Y") == "Y";
    assert Indexed(b) && Indexed(x) && Indexed(y);
    assert DrugKeys(g1) == {"B"} && DrugKeys(g2) == {"B", "X"};
    assert DrugKeys(g) == {"B", "X", "Y"};
    assert Sources(g1, "B", "J1") == {"pubmed"} && Sources(g2, "B", "J1") == {"pubmed"};
    assert Sources(g, "B", "J1") == {"pubmed"};
    assert Sources(g1, "X", "J1") == {} && Sources(g2, "X", "J1") == {"pubmed"};
    assert Sources(g, "X", "J1") == {"pubmed"};
    assert PubmedOnlyFor(g, "B", "J1") && PubmedOnlyFor(g, "X", "J1");
    forall j ensures !PubmedOnlyFor(g, "Y", j) {
      SourcesSpec(g, "Y", j, "pubmed");
    }
    assert Capitalize("X") == "X";
  }

  /** A mention missing its journal or drug, wherever it sits, leaves the journal table as it was. */
  lemma {:induction false} JournalTableIgnoresIncomplete(a: seq<GraphMention>, m: GraphMention, b: seq<GraphMention>)
    requires !Counted(m)
    ensures JournalOrder(a + [m] + b) == JournalOrder(a + b)
    ensures forall j :: DrugsIn(a + [m] + b, j) == DrugsIn(a + b, j)
    decreases |b|
  {
    var g, h := a + [m] + b, a + b;
    if b == [] {
      assert g[..|g| - 1] == a && h == a;
    } else {
      var n := |b| - 1;
      JournalTableIgnoresIncomplete(a, m, b[..n]);
      assert g[..|g| - 1] == a + [m] + b[..n] && g[|g| - 1] == b[n];
      assert h[..|h| - 1] == a + b[..n] && h[|h| - 1] == b[n];
    }
  }
}
