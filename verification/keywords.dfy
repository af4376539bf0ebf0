/** The two kinds of fixed keyword table both classifier variants are built from:
    a weight table (keyword -> points, summed over the keywords present) and an
    ordered rule list (category -> keywords, first rule with a match wins). */
module Keywords {
  import opened Text
  import opened Records

  datatype Weighted = Weighted(keyword: string, weight: int)

  predicate NonNegativeWeights(table: seq<Weighted>)
  {
    forall k :: 0 <= k < |table| ==> table[k].weight >= 0
  }

  /** Points of the entry: its weight if its keyword occurs in `text`, else nothing. */
  function Points(e: Weighted, text: string): int
  {
    if Contains(text, e.keyword) then e.weight else 0
  }

  /** The score a table gives to `text`: each entry counts once, when its keyword is
      present, however often the keyword occurs. */
  function TableScore(table: seq<Weighted>, text: string): int
  {
    if table == [] then 0
    else TableScore(table[..|table| - 1], text) + Points(table[|table| - 1], text)
  }

  function TotalWeight(table: seq<Weighted>): int
  {
    if table == [] then 0 else TotalWeight(table[..|table| - 1]) + table[|table| - 1].weight
  }

  /** With non-negative weights a score lies between zero and the sum of all weights. */
  lemma {:induction false} TableScoreBounds(table: seq<Weighted>, text: string)
    requires NonNegativeWeights(table)
    ensures 0 <= TableScore(table, text) <= TotalWeight(table)
  {
    if table != [] {
      TableScoreBounds(table[..|table| - 1], text);
    }
  }

  /** An entry whose keyword is absent takes its weight off the largest possible score. */
  lemma {:induction false} TableScoreWithAbsentEntry(table: seq<Weighted>, text: string, j: nat)
    requires NonNegativeWeights(table)
    requires j < |table| && !Contains(text, table[j].keyword)
    ensures TableScore(table, text) <= TotalWeight(table) - table[j].weight
  {
    var n := |table| - 1;
    if j == n {
      TableScoreBounds(table[..n], text);
    } else {
      TableScoreWithAbsentEntry(table[..n], text, j);
    }
  }

  /** The score depends only on which keywords are present, not on how often. */
  lemma {:induction false} TableScorePresenceOnly(table: seq<Weighted>, a: string, b: string)
    requires forall k :: 0 <= k < |table| ==> (Contains(a, table[k].keyword) <==> Contains(b, table[k].keyword))
    ensures TableScore(table, a) == TableScore(table, b)
  {
    if table != [] {
      TableScorePresenceOnly(table[..|table| - 1], a, b);
    }
  }

  /** A text holding every keyword another text holds scores at least as much, and
      strictly more when it also holds a positive-weight keyword the other lacks. */
  lemma {:induction false} TableScoreMonotone(table: seq<Weighted>, a: string, b: string)
    requires NonNegativeWeights(table)
    requires forall k :: 0 <= k < |table| && Contains(a, table[k].keyword) ==> Contains(b, table[k].keyword)
    ensures TableScore(table, a) <= TableScore(table, b)
    ensures (exists k :: 0 <= k < |table| && table[k].weight > 0
               && !Contains(a, table[k].keyword) && Contains(b, table[k].keyword))
            ==> TableScore(table, a) < TableScore(table, b)
  {
    if table != [] {
      var n := |table| - 1;
      TableScoreMonotone(table[..n], a, b);
      if exists k :: 0 <= k < |table| && table[k].weight > 0
                     && !Contains(a, table[k].keyword) && Contains(b, table[k].keyword) {
        var k :| 0 <= k < |table| && table[k].weight > 0
                 && !Contains(a, table[k].keyword) && Contains(b, table[k].keyword);
        if k < n {
          assert table[..n][k] == table[k];
        }
      }
    }
  }

  /** A table scores nothing on the empty text when none of its keywords is empty. */
  lemma {:induction false} TableScoreOfEmptyText(table: seq<Weighted>)
    requires forall k :: 0 <= k < |table| ==> table[k].keyword != []
    ensures TableScore(table, []) == 0
  {
    if table != [] {
      TableScoreOfEmptyText(table[..|table| - 1]);
      NothingInEmpty(table[|table| - 1].keyword);
    }
  }

  // ---------------------------------------------------------------- first-match rules

  datatype Rule = Rule(category: Category, words: seq<string>)

  predicate Fires(r: Rule, text: string) { AnyContains(text, r.words) }

  /** The label of the first rule with a keyword in `text`, or `Other`. */
  function FirstMatch(rules: seq<Rule>, text: string): Category
  {
    if rules == [] then Other
    else if Fires(rules[0], text) then rules[0].category
    else FirstMatch(rules[1..], text)
  }

  predicate ProperCategories(rules: seq<Rule>)
  {
    forall i :: 0 <= i < |rules| ==> rules[i].category != Other
  }

  /** First-match semantics: the result is `Other` exactly when no rule fires, and
      otherwise the label of a rule that fires with no earlier rule firing. */
  lemma {:induction false} FirstMatchSpec(rules: seq<Rule>, text: string)
    requires ProperCategories(rules)
    ensures FirstMatch(rules, text) == Other <==> forall i :: 0 <= i < |rules| ==> !Fires(rules[i], text)
    ensures FirstMatch(rules, text) != Other ==>
      exists i :: 0 <= i < |rules| && Fires(rules[i], text) && FirstMatch(rules, text) == rules[i].category
                  && forall j :: 0 <= j < i ==> !Fires(rules[j], text)
  {
    if rules != [] && !Fires(rules[0], text) {
      FirstMatchSpec(rules[1..], text);
      assert forall i :: 1 <= i < |rules| ==> rules[1..][i - 1] == rules[i];
      if FirstMatch(rules, text) != Other {
        var i :| 0 <= i < |rules[1..]| && Fires(rules[1..][i], text)
                 && FirstMatch(rules[1..], text) == rules[1..][i].category
                 && forall j :: 0 <= j < i ==> !Fires(rules[1..][j], text);
        assert forall j :: 0 <= j < i + 1 ==> !Fires(rules[j], text) by {
          forall j | 1 <= j < i + 1 ensures !Fires(rules[j], text) {
            assert rules[1..][j - 1] == rules[j];
          }
        }
      }
    }
  }

  /** The tie-break: a rule that fires is overruled only by an earlier rule. */
  lemma {:induction false} FirstMatchAt(rules: seq<Rule>, text: string, i: nat)
    requires i < |rules| && Fires(rules[i], text)
    requires forall j :: 0 <= j < i ==> !Fires(rules[j], text)
    ensures FirstMatch(rules, text) == rules[i].category
  {
    if i > 0 {
      assert !Fires(rules[0], text);
      assert forall j :: 0 <= j < i - 1 ==> rules[1..][j] == rules[j + 1];
      FirstMatchAt(rules[1..], text, i - 1);
    }
  }

  /** The result is always `Other` or one of the rules' labels. */
  lemma {:induction false} FirstMatchLabels(rules: seq<Rule>, text: string)
    ensures FirstMatch(rules, text) == Other
            || exists i :: 0 <= i < |rules| && FirstMatch(rules, text) == rules[i].category
  {
    if rules != [] && !Fires(rules[0], text) {
      FirstMatchLabels(rules[1..], text);
      if FirstMatch(rules, text) != Other {
        var i :| 0 <= i < |rules[1..]| && FirstMatch(rules[1..], text) == rules[1..][i].category;
        assert rules[1..][i] == rules[i + 1];
      }
    }
  }
}
