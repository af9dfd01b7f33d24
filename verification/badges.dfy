/**
 Streak badges: a fixed table of thresholds in days, and the rule that a
 streak earns every badge whose threshold it reaches.
 */
module Badges {

  datatype Badge = Badge(threshold: nat, emoji: string, name: string, color: string)

  /** The badge table, in its declaration order. */
  const Table: seq<Badge> := [
    Badge(3, "\U{1F31F}", "Rising Star", "#FFD700"),
    Badge(7, "\U{1F451}", "Consistency Queen", "#C0C0C0"),
    Badge(30, "\U{26A1}", "Legend", "#FFA500")
  ]

  /** Thresholds never decrease along the table. */
  ghost predicate Ascending(table: seq<Badge>) {
    forall i, j :: 0 <= i < j < |table| ==> table[i].threshold <= table[j].threshold
  }

  /**
   The badges of `table` that `streak` earns, in table order. When thresholds
   ascend, what is earned is always a prefix of the table.
   */
  function EarnedFrom(table: seq<Badge>, streak: int): (r: seq<Badge>)
    ensures forall b :: b in r <==> b in table && b.threshold <= streak
    ensures |r| <= |table|
    ensures Ascending(table) ==> r == table[..|r|]
  {
    if |table| == 0 then []
    else if table[0].threshold <= streak then
      var rest := EarnedFrom(table[1..], streak);
      assert table == [table[0]] + table[1..];
      assert Ascending(table) ==> Ascending(table[1..]);
      [table[0]] + rest
    else
      EarnedFrom(table[1..], streak)
  }

  /**
   `strip` is what `streak` earns from the badge table: exactly the badges
   whose threshold it reaches, as a prefix of the table.
   */
  ghost predicate IsEarnedStrip(strip: seq<Badge>, streak: int) {
    && (forall b :: b in strip <==> b in Table && b.threshold <= streak)
    && |strip| <= |Table|
    && strip == Table[..|strip|]
  }

  /**
   The badges earned by a streak: every badge whose threshold is at most the
   streak, in table order (3, 7, 30 days).
   */
  function EarnedBadges(streak: int): (r: seq<Badge>)
    ensures forall b :: b in r <==> b in Table && b.threshold <= streak
    ensures |r| <= |Table| && r == Table[..|r|]
    ensures |r| == if streak < 3 then 0 else if streak < 7 then 1 else if streak < 30 then 2 else 3
  {
    var r := EarnedFrom(Table, streak);
    assert Ascending(Table);
    assert Table[0] in r <==> streak >= 3;
    assert Table[1] in r <==> streak >= 7;
    assert Table[2] in r <==> streak >= 30;
    r
  }

  /** A longer streak keeps every badge a shorter one earned, in the same places. */
  lemma EarnedGrows(shorter: int, longer: int)
    requires shorter <= longer
    ensures EarnedBadges(shorter) <= EarnedBadges(longer)
  {
  }
}
