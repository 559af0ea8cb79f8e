/**
 * Theme voting (`handle_vote`): the process-wide `gameVotes` dictionary maps a
 * game to its vote session, `{"votes": {player: theme}, "total_players": n}`.
 * A vote is recorded under its player, so a player who votes again replaces
 * their theme but keeps their place. Once the number of distinct voters
 * reaches the expected number, the ballots (each player's latest theme, in
 * the order the players first voted) are tallied, the most-voted theme wins,
 * a tie going to the tied theme whose earliest ballot comes first, and the
 * session is deleted.
 */
module Voting {
  import opened Messages
  import opened Dicts

  datatype Session = Session(votes: Dict<PlayerId, Theme>, totalPlayers: int)

  // ---------------------------------------------------------------------------
  // Counting ballots

  /** The number of ballots in `vs` cast for `t`. */
  function CountOf(vs: seq<Theme>, t: Theme): nat
  {
    if |vs| == 0 then 0 else CountOf(vs[..|vs| - 1], t) + (if vs[|vs| - 1] == t then 1 else 0)
  }

  /** A theme has a positive count exactly when some ballot chose it. */
  lemma {:induction false} CountedIffVoted(vs: seq<Theme>, t: Theme)
    ensures CountOf(vs, t) > 0 <==> exists i :: 0 <= i < |vs| && vs[i] == t
  {
    if |vs| > 0 {
      var init := vs[..|vs| - 1];
      CountedIffVoted(init, t);
      if CountOf(init, t) > 0 {
        var i :| 0 <= i < |init| && init[i] == t;
        assert vs[i] == t;
      }
      if exists i :: 0 <= i < |vs| && vs[i] == t {
        var i :| 0 <= i < |vs| && vs[i] == t;
        if i < |init| {
          assert init[i] == t;
        }
      }
    }
  }

  /** Counting a prefix of the ballots never gives more than counting all of them. */
  lemma {:induction false} CountGrows(vs: seq<Theme>, n: nat, t: Theme)
    requires n <= |vs|
    ensures CountOf(vs[..n], t) <= CountOf(vs, t)
  {
    if n < |vs| {
      var init := vs[..|vs| - 1];
      assert init[..n] == vs[..n];
      CountGrows(init, n, t);
      assert CountOf(vs, t) >= CountOf(init, t);
    } else {
      assert vs[..n] == vs;
    }
  }

  /** A theme that was voted for has a first ballot. */
  lemma {:induction false} FirstVote(vs: seq<Theme>, t: Theme) returns (i: nat)
    requires CountOf(vs, t) > 0
    ensures i < |vs| && vs[i] == t && CountOf(vs[..i], t) == 0
  {
    var init := vs[..|vs| - 1];
    if CountOf(init, t) > 0 {
      i := FirstVote(init, t);
      assert init[..i] == vs[..i];
    } else {
      i := |vs| - 1;
      assert vs[..i] == init;
    }
  }

  // ---------------------------------------------------------------------------
  // The winner, stated without the tally

  /**
   * `w` is the winning theme of ballots `vs`: somebody voted for it, no theme
   * has more votes, and every ballot for a theme with as many votes comes at
   * or after the first ballot for `w`. This is the rule `max` applies to the
   * tally, whose keys are in first-ballot order; it is not "the theme that
   * reached the maximum first" (see `FirstKeyBeatsFirstToMaximum`).
   */
  ghost predicate IsWinner(vs: seq<Theme>, w: Theme)
  {
    && CountOf(vs, w) > 0
    && (forall i :: 0 <= i < |vs| ==> CountOf(vs, vs[i]) <= CountOf(vs, w))
    && (forall i :: 0 <= i < |vs| && CountOf(vs, vs[i]) == CountOf(vs, w) ==> CountOf(vs[..i + 1], w) > 0)
  }

  /** The tie-break makes the winner unique. */
  lemma WinnerIsUnique(vs: seq<Theme>, w1: Theme, w2: Theme)
    requires IsWinner(vs, w1) && IsWinner(vs, w2)
    ensures w1 == w2
  {
    var i1 := FirstVote(vs, w1);
    var i2 := FirstVote(vs, w2);
    assert CountOf(vs, w1) == CountOf(vs, w2) by {
      assert CountOf(vs, vs[i1]) <= CountOf(vs, w2);
      assert CountOf(vs, vs[i2]) <= CountOf(vs, w1);
    }
    if w1 != w2 {
      assert CountOf(vs[..i2 + 1], w1) > 0;
      assert vs[..i2 + 1][..i2] == vs[..i2];
      CountedIffVoted(vs[..i2], w1);
      var j :| 0 <= j < i2 && vs[..i2][j] == w1;
      assert vs[j] == w1;
      assert CountOf(vs[..j + 1], w2) > 0;
      assert vs[..i2][..j + 1] == vs[..j + 1];
      CountGrows(vs[..i2], j + 1, w2);
      assert false;
    }
  }

  // ---------------------------------------------------------------------------
  // The tally and `max` as the source computes them

  /**
   * `theme_counts` after the counting loop of `handle_vote` has seen the ballots `vs`
   * in order: each theme keyed at its first ballot, with its number of ballots.
   */
  function Tally(vs: seq<Theme>): (counts: Dict<Theme, nat>)
    ensures counts.Valid()
    ensures forall t :: t in counts.entries <==> CountOf(vs, t) > 0
    ensures forall t :: t in counts.entries ==> counts.entries[t] == CountOf(vs, t)
  {
    if |vs| == 0 then Empty()
    else
      var counts := Tally(vs[..|vs| - 1]);
      var vote := vs[|vs| - 1];
      counts.Put(vote, (if vote in counts.entries then counts.entries[vote] else 0) + 1)
  }

  /** Counting one more ballot for `t`, which had been counted `c` times. */
  lemma CountOneMore(counts: Dict<Theme, nat>, t: Theme, c: nat)
    requires counts.Valid()
    requires t in counts.entries <==> c > 0
    requires t in counts.entries ==> counts.entries[t] == c
    ensures counts.Put(t, (if t in counts.entries then counts.entries[t] else 0) + 1).entries == counts.entries[t := c + 1]
    ensures counts.Put(t, (if t in counts.entries then counts.entries[t] else 0) + 1).keys == counts.keys + (if c == 0 then [t] else [])
  {
  }

  /**
   * The last ballot raises the count of its theme to one more than the
   * ballots before it gave that theme, and changes no other count; its theme
   * is appended to the keys exactly when no earlier ballot named it.
   */
  lemma TallyStep(vs: seq<Theme>)
    requires |vs| > 0
    ensures var init, last := vs[..|vs| - 1], vs[|vs| - 1];
      && Tally(vs).entries == Tally(init).entries[last := CountOf(init, last) + 1]
      && Tally(vs).keys == Tally(init).keys + (if CountOf(init, last) == 0 then [last] else [])
  {
    var init, last := vs[..|vs| - 1], vs[|vs| - 1];
    var counts, c := Tally(init), CountOf(init, last);
    var next := counts.Put(last, (if last in counts.entries then counts.entries[last] else 0) + 1);
    assert Tally(vs) == next;
    CountOneMore(counts, last, c);
  }

  /** The themes keyed after some ballots keep their places as more ballots are tallied. */
  lemma {:induction false} TallyPrefix(vs: seq<Theme>, n: nat)
    requires n <= |vs|
    ensures |Tally(vs[..n]).keys| <= |Tally(vs).keys|
    ensures Tally(vs).keys[..|Tally(vs[..n]).keys|] == Tally(vs[..n]).keys
  {
    if n < |vs| {
      var init := vs[..|vs| - 1];
      assert init[..n] == vs[..n];
      TallyPrefix(init, n);
      var a, b, c := Tally(vs[..n]).keys, Tally(init).keys, Tally(vs).keys;
      assert c[..|b|] == b;
      assert c[..|a|] == b[..|a|];
    } else {
      assert vs[..n] == vs;
    }
  }

  /**
   * `max(counts, key=counts.get)`, as the position of the key it returns: a
   * key with the largest count; the scan replaces its candidate only on a
   * strictly larger count, so every earlier key has a smaller count.
   */
  function MaxIndex(keys: seq<Theme>, counts: map<Theme, nat>): (b: nat)
    requires |keys| > 0
    requires forall k :: k in keys ==> k in counts
    ensures b < |keys|
    ensures forall j :: 0 <= j < |keys| ==> counts[keys[j]] <= counts[keys[b]]
    ensures forall j :: 0 <= j < b ==> counts[keys[j]] < counts[keys[b]]
  {
    if |keys| == 1 then 0
    else
      var best := MaxIndex(keys[..|keys| - 1], counts);
      if counts[keys[|keys| - 1]] > counts[keys[best]] then |keys| - 1 else best
  }

  /** The theme `max` picks from the tally is the winner of the ballots. */
  lemma TallyWinner(vs: seq<Theme>)
    requires |vs| > 0
    ensures |Tally(vs).keys| > 0
    ensures IsWinner(vs, Tally(vs).keys[MaxIndex(Tally(vs).keys, Tally(vs).entries)])
  {
    var counts := Tally(vs);
    CountedIffVoted(vs, vs[0]);
    assert vs[0] in counts.keys;
    var b := MaxIndex(counts.keys, counts.entries);
    var w := counts.keys[b];
    forall i | 0 <= i < |vs|
      ensures CountOf(vs, vs[i]) <= CountOf(vs, w)
      ensures CountOf(vs, vs[i]) == CountOf(vs, w) ==> CountOf(vs[..i + 1], w) > 0
    {
      var t := vs[i];
      CountedIffVoted(vs, t);
      var j :| 0 <= j < |counts.keys| && counts.keys[j] == t;
      if CountOf(vs, t) == CountOf(vs, w) {
        TieFoundInPrefix(vs, i, j, b);
      }
    }
  }

  /**
   * A ballot at position `i` for the theme keyed at `j` of the full tally
   * means the tally of the ballots up to `i` already keys every theme up to
   * position `j`, in particular the one at `b <= j`.
   */
  lemma TieFoundInPrefix(vs: seq<Theme>, i: nat, j: nat, b: nat)
    requires i < |vs| && b <= j < |Tally(vs).keys| && Tally(vs).keys[j] == vs[i]
    ensures CountOf(vs[..i + 1], Tally(vs).keys[b]) > 0
  {
    var counts, prefix := Tally(vs), Tally(vs[..i + 1]);
    TallyPrefix(vs, i + 1);
    CountedIffVoted(vs[..i + 1], vs[i]);
    assert vs[..i + 1][i] == vs[i];
    var j' :| 0 <= j' < |prefix.keys| && prefix.keys[j'] == vs[i];
    assert counts.keys[j'] == vs[i];
    assert j' == j;
    assert prefix.keys[b] == counts.keys[b];
    assert counts.keys[b] in prefix.entries;
  }

  /** One pass of the counting loop turns the tally of `vs[..i]` into the tally of `vs[..i + 1]`. */
  lemma LoopStep(vs: seq<Theme>, i: nat)
    requires i < |vs|
    ensures var counts := Tally(vs[..i]);
      counts.Put(vs[i], (if vs[i] in counts.entries then counts.entries[vs[i]] else 0) + 1) == Tally(vs[..i + 1])
  {
    assert vs[..i + 1][..i] == vs[..i];
  }

  // ---------------------------------------------------------------------------
  // The vote handler

  /**
   * The counting loop of `handle_vote`: count the ballots of a session, which
   * are its players' latest themes in the order the players first voted.
   */
  method CountThemes(votes: Dict<PlayerId, Theme>) returns (counts: Dict<Theme, nat>)
    requires votes.Valid()
    ensures counts == Tally(votes.Values())
  {
    var ballots := votes.Values();
    counts := Empty();
    var i := 0;
    while i < |votes.keys|
      invariant i <= |votes.keys|
      invariant counts == Tally(ballots[..i])
    {
      var vote := votes.entries[votes.keys[i]];
      LoopStep(ballots, i);
      counts := counts.Put(vote, (if vote in counts.entries then counts.entries[vote] else 0) + 1);
      i := i + 1;
    }
    assert ballots[..i] == ballots;
  }

  /** The resolution step of `handle_vote`: tally the ballots of a session and pick the winning theme with `max`. */
  method WinningTheme(votes: Dict<PlayerId, Theme>) returns (winner: Theme)
    requires votes.Valid() && votes.Size() > 0
    ensures IsWinner(votes.Values(), winner)
  {
    var counts := CountThemes(votes);
    TallyWinner(votes.Values());
    winner := counts.keys[MaxIndex(counts.keys, counts.entries)];
  }

  /** The ballots of `s` after `player` votes for `theme`. */
  function Record(s: Session, player: PlayerId, theme: Theme): (s': Session)
    requires s.votes.Valid()
    ensures s'.votes.Valid() && s'.totalPlayers == s.totalPlayers
    ensures s'.votes.entries == s.votes.entries[player := theme]
    ensures s'.votes.Size() == |s'.votes.entries.Keys|
  {
    var s' := Session(s.votes.Put(player, theme), s.totalPlayers);
    SizeIsEntryCount(s'.votes);
    s'
  }

  /** When every theme voted for has the same number of votes, the first ballot's theme wins. */
  lemma EvenTieGoesToFirstBallot(vs: seq<Theme>)
    requires |vs| > 0
    requires forall i :: 0 <= i < |vs| ==> CountOf(vs, vs[i]) == CountOf(vs, vs[0])
    ensures IsWinner(vs, vs[0])
  {
    CountedIffVoted(vs, vs[0]);
    forall i | 0 <= i < |vs|
      ensures CountOf(vs, vs[i]) == CountOf(vs, vs[0]) ==> CountOf(vs[..i + 1], vs[0]) > 0
    {
      CountedIffVoted(vs[..i + 1], vs[0]);
      assert vs[..i + 1][0] == vs[0];
    }
  }

  /** Two themes with two votes each, voted in turn: the one with the earlier first ballot wins. */
  lemma HalloweenWinsTie()
    ensures forall w :: IsWinner(["halloween", "christmas", "halloween", "christmas"], w) <==> w == "halloween"
  {
    var h, c := "halloween", "christmas";
    var vs := [h, c, h, c];
    assert vs[..1][..0] == [];
    assert vs[..2][..1] == vs[..1] == [h];
    assert vs[..3][..2] == vs[..2] == [h, c];
    assert vs[..4][..3] == vs[..3] == [h, c, h];
    assert vs[..4] == vs;
    assert CountOf(vs[..1], h) == 1 && CountOf(vs[..1], c) == 0;
    assert CountOf(vs[..2], h) == 1 && CountOf(vs[..2], c) == 1;
    assert CountOf(vs[..3], h) == 2 && CountOf(vs[..3], c) == 1;
    assert CountOf(vs, h) == 2 && CountOf(vs, c) == 2;
    assert IsWinner(vs, h);
    forall w | IsWinner(vs, w)
      ensures w == h
    {
      WinnerIsUnique(vs, w, h);
    }
  }

  /**
   * `max` keeps the first key among tied themes, which need not be the theme
   * that reached the shared maximum first: on the ballots halloween,
   * christmas, christmas, halloween, christmas has its two votes after the
   * third ballot and halloween only after the fourth, and halloween wins.
   */
  lemma FirstKeyBeatsFirstToMaximum()
    ensures var vs := ["halloween", "christmas", "christmas", "halloween"];
      && CountOf(vs[..3], "christmas") == CountOf(vs, "christmas") == CountOf(vs, "halloween")
      && CountOf(vs[..3], "halloween") < CountOf(vs, "halloween")
      && forall w :: IsWinner(vs, w) <==> w == "halloween"
  {
    var h, c := "halloween", "christmas";
    var vs := [h, c, c, h];
    assert vs[..1][..0] == [];
    assert vs[..2][..1] == vs[..1] == [h];
    assert vs[..3][..2] == vs[..2] == [h, c];
    assert vs[..4][..3] == vs[..3] == [h, c, c];
    assert vs[..4] == vs;
    assert CountOf(vs[..1], h) == 1 && CountOf(vs[..1], c) == 0;
    assert CountOf(vs[..2], h) == 1 && CountOf(vs[..2], c) == 1;
    assert CountOf(vs[..3], h) == 1 && CountOf(vs[..3], c) == 2;
    assert CountOf(vs, h) == 2 && CountOf(vs, c) == 2;
    assert IsWinner(vs, h);
    forall w | IsWinner(vs, w)
      ensures w == h
    {
      WinnerIsUnique(vs, w, h);
    }
  }
}
