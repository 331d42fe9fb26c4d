/** The high-score table as the game sees it (rows ordered by score,
    highest first), the rule that decides at game over whether a score is
    entered, and the name editor of the entry screen. */
module HighScores {
  /** Number of rows shown and ranked. */
  const TopCount: nat := 5
  const MaxNameLength: nat := 12

  datatype Player = Player(name: string, score: nat)

  /** The rows in the order `ORDER BY score DESC` returns them. */
  predicate Ranked(records: seq<Player>) {
    forall i, j :: 0 <= i < j < |records| ==> records[i].score >= records[j].score
  }

  /** The decision of handle_game_over: a zero score is never entered;
      with fewer than five rows any other score is; otherwise only a score
      strictly above the fifth-ranked one. */
  function Qualifies(score: nat, records: seq<Player>): bool {
    if score == 0 then false
    else if |records| < TopCount then true
    else score > records[TopCount - 1].score
  }

  /** Number of rows whose score is at least the given one. */
  function CountAtLeast(records: seq<Player>, score: nat): nat {
    if records == [] then 0
    else (if records[0].score >= score then 1 else 0) + CountAtLeast(records[1..], score)
  }

  /** In a ranked table the rows scoring at least s come first. */
  lemma {:induction false} CountAtLeastPrefix(records: seq<Player>, score: nat)
    requires Ranked(records)
    ensures CountAtLeast(records, score) <= |records|
    ensures forall i :: 0 <= i < CountAtLeast(records, score) ==> records[i].score >= score
    ensures forall i :: CountAtLeast(records, score) <= i < |records| ==> records[i].score < score
  {
    if records != [] {
      CountAtLeastPrefix(records[1..], score);
      if records[0].score < score {
        CountAtLeastNone(records[1..], score);
      }
    }
  }

  lemma {:induction false} CountAtLeastNone(records: seq<Player>, score: nat)
    requires forall i :: 0 <= i < |records| ==> records[i].score < score
    ensures CountAtLeast(records, score) == 0
  {
    if records != [] {
      CountAtLeastNone(records[1..], score);
    }
  }

  /** A non-zero score qualifies exactly when fewer than five rows already
      score at least as much, and a score that does not qualify could not
      have improved a full top five. */
  lemma QualifiesMeansFewerBetter(score: nat, records: seq<Player>)
    requires Ranked(records)
    ensures Qualifies(score, records) <==> score > 0 && CountAtLeast(records, score) < TopCount
    ensures !Qualifies(score, records) && score > 0 ==>
      |records| >= TopCount && forall i :: 0 <= i < TopCount ==> records[i].score >= score
  {
    CountAtLeastPrefix(records, score);
  }

  /** The table after inserting a row: it goes after every row scoring at
      least as much. */
  function InsertRanked(records: seq<Player>, p: Player): seq<Player> {
    if records == [] then [p]
    else if records[0].score < p.score then [p] + records
    else [records[0]] + InsertRanked(records[1..], p)
  }

  /** Inserting adds exactly the new row. */
  lemma {:induction false} InsertRankedMultiset(records: seq<Player>, p: Player)
    ensures multiset(InsertRanked(records, p)) == multiset(records) + multiset{p}
  {
    if records != [] && records[0].score >= p.score {
      var rest := records[1..];
      InsertRankedMultiset(rest, p);
      assert records == [records[0]] + rest;
      ConsMultiset(records[0], rest, InsertRanked(rest, p), p);
    }
  }

  lemma ConsMultiset(x: Player, rest: seq<Player>, ins: seq<Player>, p: Player)
    requires multiset(ins) == multiset(rest) + multiset{p}
    ensures multiset([x] + ins) == multiset([x] + rest) + multiset{p}
  {
    assert multiset([x] + ins) == multiset{x} + multiset(ins);
    assert multiset([x] + rest) == multiset{x} + multiset(rest);
  }

  /** Inserting keeps the table ranked and puts the new row right after the
      rows scoring at least as much. */
  lemma InsertRankedProps(records: seq<Player>, p: Player)
    requires Ranked(records)
    ensures Ranked(InsertRanked(records, p))
    ensures multiset(InsertRanked(records, p)) == multiset(records) + multiset{p}
    ensures CountAtLeast(records, p.score) < |InsertRanked(records, p)|
    ensures InsertRanked(records, p)[CountAtLeast(records, p.score)] == p
  {
    InsertRankedMultiset(records, p);
    InsertRankedRanked(records, p);
    InsertRankedPosition(records, p);
  }

  lemma {:induction false} InsertRankedRanked(records: seq<Player>, p: Player)
    requires Ranked(records)
    ensures Ranked(InsertRanked(records, p))
  {
    if records != [] {
      var rest := records[1..];
      if records[0].score >= p.score {
        assert Ranked(rest) by {
          assert forall i :: 0 <= i < |rest| ==> rest[i] == records[i + 1];
        }
        InsertRankedRanked(rest, p);
        InsertRankedMultiset(rest, p);
        assert [records[0]] + rest == records;
        HeadDominates(records[0], rest, p);
      } else {
        var all := [p] + records;
        forall i, j | 0 <= i < j < |all|
          ensures all[i].score >= all[j].score
        {
          assert all[j] == records[j - 1];
          if i > 0 {
            assert all[i] == records[i - 1];
          } else {
            assert records[0].score >= records[j - 1].score;
          }
        }
      }
    }
  }

  lemma {:induction false} InsertRankedPosition(records: seq<Player>, p: Player)
    requires Ranked(records)
    ensures CountAtLeast(records, p.score) < |InsertRanked(records, p)|
    ensures InsertRanked(records, p)[CountAtLeast(records, p.score)] == p
  {
    if records != [] {
      var rest := records[1..];
      if records[0].score >= p.score {
        assert Ranked(rest) by {
          assert forall i :: 0 <= i < |rest| ==> rest[i] == records[i + 1];
        }
        InsertRankedPosition(rest, p);
        assert CountAtLeast(records, p.score) == 1 + CountAtLeast(rest, p.score);
        assert InsertRanked(records, p) == [records[0]] + InsertRanked(rest, p);
      } else {
        assert forall i :: 0 <= i < |records| ==> records[i].score < p.score by {
          assert forall i :: 0 <= i < |records| ==> records[0].score >= records[i].score;
        }
        CountAtLeastNone(records, p.score);
      }
    }
  }

  /** A row scoring at least every row of a ranked table and the new row
      may head the table after insertion. */
  lemma HeadDominates(head: Player, rest: seq<Player>, p: Player)
    requires Ranked([head] + rest) && Ranked(InsertRanked(rest, p)) && head.score >= p.score
    requires multiset(InsertRanked(rest, p)) == multiset(rest) + multiset{p}
    ensures Ranked([head] + InsertRanked(rest, p))
  {
    var ins := InsertRanked(rest, p);
    forall j | 0 <= j < |ins|
      ensures head.score >= ins[j].score
    {
      assert ins[j] in multiset(ins);
      if ins[j] != p {
        assert ins[j] in multiset(rest);
        var k :| 0 <= k < |rest| && rest[k] == ins[j];
        assert ([head] + rest)[0] == head && ([head] + rest)[k + 1] == rest[k];
        assert head.score >= rest[k].score;
      }
    }
    var all := [head] + ins;
    forall i, j | 0 <= i < j < |all|
      ensures all[i].score >= all[j].score
    {
      if i > 0 {
        assert all[i] == ins[i - 1] && all[j] == ins[j - 1];
      } else {
        assert all[j] == ins[j - 1];
      }
    }
  }

  /** The rows of the high-score screen. */
  function TopPlayers(records: seq<Player>): (top: seq<Player>)
    ensures |top| <= TopCount && |top| <= |records| && top == records[..|top|]
  {
    if |records| <= TopCount then records else records[..TopCount]
  }

  /** A score that qualifies is shown on the next high-score screen. */
  lemma QualifyingScoreShown(records: seq<Player>, p: Player)
    requires Ranked(records) && Qualifies(p.score, records)
    ensures p in TopPlayers(InsertRanked(records, p))
  {
    QualifiesMeansFewerBetter(p.score, records);
    InsertRankedProps(records, p);
    var k := CountAtLeast(records, p.score);
    assert TopPlayers(InsertRanked(records, p))[k] == p;
  }

  // ---------------------------------------------------------------------
  // The name editor of new_high_score

  /** The name with ch inserted at the cursor. */
  function InsertAt(name: string, cursor: nat, ch: char): (r: string)
    requires cursor <= |name|
    ensures |r| == |name| + 1 && r[cursor] == ch
    ensures r[..cursor] == name[..cursor] && r[cursor + 1..] == name[cursor..]
  {
    name[..cursor] + [ch] + name[cursor..]
  }

  /** The name with the character before the cursor removed. */
  function RemoveBefore(name: string, cursor: nat): (r: string)
    requires 0 < cursor <= |name|
    ensures |r| == |name| - 1
    ensures r[..cursor - 1] == name[..cursor - 1] && r[cursor - 1..] == name[cursor..]
  {
    name[..cursor - 1] + name[cursor..]
  }

  /** Backspace right after typing a character restores the name. */
  lemma RemoveUndoesInsert(name: string, cursor: nat, ch: char)
    requires cursor <= |name|
    ensures RemoveBefore(InsertAt(name, cursor, ch), cursor + 1) == name
  {
    assert name == name[..cursor] + name[cursor..];
  }

  /** Typing again the character just erased restores the name. */
  lemma InsertUndoesRemove(name: string, cursor: nat)
    requires 0 < cursor <= |name|
    ensures InsertAt(RemoveBefore(name, cursor), cursor - 1, name[cursor - 1]) == name
  {
    assert name == name[..cursor - 1] + [name[cursor - 1]] + name[cursor..];
  }
}
