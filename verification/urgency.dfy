/** The display/agent classifier: `calculate_urgency_score` and `categorize_message`. */
module Urgency {
  import opened Text
  import opened Records
  import opened Keywords

  const HighThreshold: int := 12
  const MediumThreshold: int := 7
  const BoostPoints: int := 3

  /** The 26-entry urgency table, in the dictionary's order. */
  const UrgencyTable: seq<Weighted> := [
    Weighted("urgent", 5), Weighted("emergency", 5), Weighted("immediately", 4),
    Weighted("asap", 4), Weighted("now", 3),
    Weighted("loan", 3), Weighted("disburse", 4), Weighted("approval", 3),
    Weighted("approved", 2), Weighted("rejected", 4),
    Weighted("batch number", 3), Weighted("CRB", 3), Weighted("clearance", 3), Weighted("credit", 3),
    Weighted("payment", 2), Weighted("pay", 2), Weighted("money", 2), Weighted("balance", 2),
    Weighted("due", 2),
    Weighted("help", 3), Weighted("problem", 3), Weighted("issue", 3), Weighted("error", 3),
    Weighted("fraud", 5), Weighted("stolen", 5), Weighted("hacked", 5)
  ]

  /** Index of the `'CRB'` entry in the table. */
  const CrbEntry: nat := 11

  const BoostPhrases: seq<string> := ["can't access", "can't login", "blocked"]

  /** The urgency score of a message: the table score of its lower-cased text plus the
      boost when a boost phrase is present. */
  function UrgencyScore(message: string): int
  {
    var lowered := Lower(message);
    TableScore(UrgencyTable, lowered) + (if AnyContains(lowered, BoostPhrases) then BoostPoints else 0)
  }

  /** The display priority of a score. */
  function PriorityFor(score: int): (p: Priority)
    ensures p == High <==> score >= HighThreshold
    ensures p == Medium <==> MediumThreshold <= score < HighThreshold
    ensures p == Low <==> score < MediumThreshold
  {
    if score >= HighThreshold then High
    else if score >= MediumThreshold then Medium
    else Low
  }

  /** `calculate_urgency_score`: the loop over the table, then the boost, then the
      priority bucket. */
  method CalculateUrgencyScore(message: string) returns (score: int, priority: Priority)
    ensures score == UrgencyScore(message)
    ensures priority == PriorityFor(score)
  {
    var lowered := Lower(message);
    score := 0;
    for k := 0 to |UrgencyTable|
      invariant score == TableScore(UrgencyTable[..k], lowered)
    {
      var entry := UrgencyTable[k];
      if Contains(lowered, entry.keyword) {
        score := score + entry.weight;
      }
      assert UrgencyTable[..k + 1][..k] == UrgencyTable[..k];
    }
    assert UrgencyTable[..|UrgencyTable|] == UrgencyTable;
    if AnyContains(lowered, BoostPhrases) {
      score := score + BoostPoints;
    }
    if score >= HighThreshold {
      priority := High;
    } else if score >= MediumThreshold {
      priority := Medium;
    } else {
      priority := Low;
    }
  }

  lemma UrgencyTableWeights()
    ensures NonNegativeWeights(UrgencyTable)
    ensures forall k :: 0 <= k < |UrgencyTable| ==> UrgencyTable[k].keyword != []
  {
  }

  /** `'CRB'` is tested against `message.lower()`, so it never adds its points. */
  lemma CrbNeverScores(message: string)
    ensures UrgencyTable[CrbEntry].keyword == "CRB"
    ensures Points(UrgencyTable[CrbEntry], Lower(message)) == 0
  {
    assert IsUpper("CRB"[0]);
    UpperWordNeverInLowered(message, "CRB");
  }

  /** Scores are never negative, and never above the 83 points the table can actually
      award (its 86-point total minus the unreachable `'CRB'` entry) plus the boost. */
  lemma UrgencyScoreBounds(message: string)
    ensures 0 <= UrgencyScore(message) <= TotalWeight(UrgencyTable) - UrgencyTable[CrbEntry].weight + BoostPoints
  {
    UrgencyTableWeights();
    CrbNeverScores(message);
    TableScoreBounds(UrgencyTable, Lower(message));
    TableScoreWithAbsentEntry(UrgencyTable, Lower(message), CrbEntry);
  }

  /** The empty message scores 0 and is low priority. */
  lemma EmptyMessageScore()
    ensures UrgencyScore("") == 0 && PriorityFor(UrgencyScore("")) == Low
  {
    UrgencyTableWeights();
    assert Lower("") == [];
    TableScoreOfEmptyText(UrgencyTable);
    forall j | 0 <= j < |BoostPhrases| ensures !Contains([], BoostPhrases[j]) {
      NothingInEmpty(BoostPhrases[j]);
    }
  }

  /** Presence, not frequency: messages holding the same table keywords and boost
      phrases get the same score. */
  lemma UrgencyScorePresenceOnly(m1: string, m2: string)
    requires forall k :: 0 <= k < |UrgencyTable| ==>
               (Contains(Lower(m1), UrgencyTable[k].keyword) <==> Contains(Lower(m2), UrgencyTable[k].keyword))
    requires AnyContains(Lower(m1), BoostPhrases) <==> AnyContains(Lower(m2), BoostPhrases)
    ensures UrgencyScore(m1) == UrgencyScore(m2)
  {
    TableScorePresenceOnly(UrgencyTable, Lower(m1), Lower(m2));
  }

  /** Monotonicity under keyword union: a message holding every keyword (and the boost,
      if any) of another scores at least as high; one extra distinct keyword makes it
      strictly higher. */
  lemma UrgencyScoreMonotone(m1: string, m2: string)
    requires forall k :: 0 <= k < |UrgencyTable| && Contains(Lower(m1), UrgencyTable[k].keyword)
               ==> Contains(Lower(m2), UrgencyTable[k].keyword)
    requires AnyContains(Lower(m1), BoostPhrases) ==> AnyContains(Lower(m2), BoostPhrases)
    ensures UrgencyScore(m1) <= UrgencyScore(m2)
    ensures (exists k :: 0 <= k < |UrgencyTable| && !Contains(Lower(m1), UrgencyTable[k].keyword)
                                                 && Contains(Lower(m2), UrgencyTable[k].keyword))
            ==> UrgencyScore(m1) < UrgencyScore(m2)
  {
    UrgencyTableWeights();
    TableScoreMonotone(UrgencyTable, Lower(m1), Lower(m2));
  }

  /** A higher score never yields a lower priority tier. */
  lemma PriorityMonotone(s1: int, s2: int)
    requires s1 <= s2
    ensures PriorityFor(s1).Rank() <= PriorityFor(s2).Rank()
  {
  }

  // ---------------------------------------------------------------- categories

  /** The seven category rules of `categorize_message`, in the dictionary's order. */
  const CategoryRules: seq<Rule> := [
    Rule(LoanApplication, ["loan", "apply", "application", "approved", "rejected", "qualif", "eligible"]),
    Rule(Payment, ["pay", "payment", "clear", "balance", "due", "overdue", "settle"]),
    Rule(Technical, ["app", "login", "access", "error", "bug", "system", "technical"]),
    Rule(Account, ["account", "update", "change", "number", "phone", "email", "profile"]),
    Rule(Urgent, ["urgent", "emergency", "asap", "immediately", "now", "critical"]),
    Rule(Fraud, ["fraud", "stolen", "hacked", "unauthorized", "scam"]),
    Rule(General, ["hi", "hello", "thanks", "thank", "help", "question"])
  ]

  /** The category of a message: the first rule with a keyword in its lower-cased text. */
  function Categorize(message: string): Category
  {
    FirstMatch(CategoryRules, Lower(message))
  }

  /** `categorize_message`: scan the rules in order, return on the first that fires. */
  method CategorizeMessage(message: string) returns (category: Category)
    ensures category == Categorize(message)
  {
    var lowered := Lower(message);
    for i := 0 to |CategoryRules|
      invariant FirstMatch(CategoryRules[i..], lowered) == FirstMatch(CategoryRules, lowered)
    {
      if AnyContains(lowered, CategoryRules[i].words) {
        return CategoryRules[i].category;
      }
      assert CategoryRules[i..][1..] == CategoryRules[i + 1..];
    }
    return Other;
  }

  /** `other` exactly when no keyword of any category occurs; otherwise the first
      category in the fixed order whose keywords occur. */
  lemma CategorizeFirstMatch(message: string)
    ensures Categorize(message) == Other <==>
            forall i :: 0 <= i < |CategoryRules| ==> !AnyContains(Lower(message), CategoryRules[i].words)
    ensures Categorize(message) != Other ==>
            exists i :: 0 <= i < |CategoryRules| && AnyContains(Lower(message), CategoryRules[i].words)
                        && Categorize(message) == CategoryRules[i].category
                        && forall j :: 0 <= j < i ==> !AnyContains(Lower(message), CategoryRules[j].words)
  {
    FirstMatchSpec(CategoryRules, Lower(message));
  }

  /** The display classifier only produces its own seven categories and `other`. */
  lemma CategorizeRange(message: string)
    ensures Categorize(message) in {LoanApplication, Payment, Technical, Account, Urgent, Fraud, General, Other}
  {
    FirstMatchLabels(CategoryRules, Lower(message));
  }

  /** Tie-break: any loan keyword makes the message a loan application, whatever else
      (an urgent word, a payment word) it contains. */
  lemma LoanKeywordWins(message: string, w: string)
    requires w in CategoryRules[0].words && Contains(Lower(message), w)
    ensures Categorize(message) == LoanApplication
  {
    var j :| 0 <= j < |CategoryRules[0].words| && CategoryRules[0].words[j] == w;
    FirstMatchAt(CategoryRules, Lower(message), 0);
  }
}
