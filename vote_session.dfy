/**
 * The page's voting state: the loaded video, the index of the statement on
 * show, and the fixed list of statements. `LoadVideo`, `SendVote` and
 * `Shown` are the page's loadVideo, sendVote and showStatement; the vote
 * record that the page writes to the console is returned (and kept in the
 * ghost log `emitted`), and the alerts become an unchanged state.
 */
module VoteSession {
  import opened Wrappers
  import opened YouTubeId

  /** The longest statement the page is meant to show. */
  const MaxStatementLength: nat := 260

  /** `s` repeated `n` times, as the string method `repeat` builds it. */
  function Repeat(s: string, n: nat): (r: string)
    ensures |r| == n * |s|
    ensures n > 0 ==> r[..|s|] == s
    ensures forall i :: 0 <= i < |r| ==> r[i] in s
  {
    if n == 0 then [] else s + Repeat(s, n - 1)
  }

  /** The prefix of `s` that the string method `slice(0, end)` keeps. */
  function Slice(s: string, end: nat): (r: string)
    ensures r <= s
    ensures |r| <= end
    ensures |s| <= end ==> r == s
    ensures end <= |s| ==> |r| == end
  {
    if |s| <= end then s else s[..end]
  }

  /** The page's built-in statements; the third is cut to the length limit. */
  const Statements: seq<string> := [
    "Statement 1: This is an example statement for voting.",
    "Statement 2: Another example question or claim goes here.",
    Slice(Repeat("Statement 3: A longer one just to test the 260 character limit. ", 5), 260)
  ]

  /** Every built-in statement fits the limit, and the third one is cut exactly at it. */
  lemma StatementsWithinLimit()
    ensures |Statements| == 3
    ensures forall i :: 0 <= i < |Statements| ==> |Statements[i]| <= MaxStatementLength
    ensures |Statements[2]| == MaxStatementLength
  {
    var base := "Statement 3: A longer one just to test the 260 character limit. ";
    assert |base| == 64;
    assert |Repeat(base, 5)| == 320;
  }

  /** The statement shown for a given index: the index wraps around the list. */
  function StatementAt(statements: seq<string>, index: nat): (s: string)
    requires |statements| > 0
    ensures s in statements
    ensures index < |statements| ==> s == statements[index]
  {
    statements[index % |statements|]
  }

  /** After a whole round of `|statements|` votes the same statement is shown again, however many rounds pass. */
  lemma {:induction false} StatementCycle(statements: seq<string>, index: nat, rounds: nat)
    requires |statements| > 0
    ensures StatementAt(statements, index + rounds * |statements|) == StatementAt(statements, index)
  {
    if rounds > 0 {
      var n := |statements|;
      StatementCycle(statements, index, rounds - 1);
      assert index + rounds * n == (index + (rounds - 1) * n) + n;
      ModuloStep(index + (rounds - 1) * n, n);
    }
  }

  /** Arithmetic step behind `StatementCycle`: adding the list length keeps the remainder. */
  lemma ModuloStep(x: nat, n: nat)
    requires n > 0
    ensures (x + n) % n == x % n
  {
    var q, r := x / n, x % n;
    var q', r' := (x + n) / n, (x + n) % n;
    assert (q' - q - 1) * n == r - r';
    if q' > q + 1 {
      MultiplyAtLeast(q' - q - 1, n);
    } else if q' < q + 1 {
      MultiplyAtLeast(q + 1 - q', n);
    }
  }

  /** Arithmetic step behind `StatementCycle`: a positive multiple of `n` is at least `n`. */
  lemma MultiplyAtLeast(k: int, n: int)
    requires k >= 1 && n > 0
    ensures k * n >= n
  {
  }

  /** The record the page logs for an accepted vote. */
  datatype Vote = Vote(vote: int, statementId: nat, timecode: int)

  class Session {
    /** The id of the loaded video, standing for the embedded player; None until a video loads. */
    var player: Option<string>
    /** The number of accepted votes, which is also the id of the next statement voted on. */
    var statementIndex: nat
    const statements: seq<string>
    /** Every vote record the session has emitted, oldest first. */
    ghost var emitted: seq<Vote>

    ghost predicate Valid()
      reads this
    {
      && |statements| > 0
      && (forall i :: 0 <= i < |statements| ==> |statements[i]| <= MaxStatementLength)
      && statementIndex == |emitted|
      && forall n :: 0 <= n < |emitted| ==> emitted[n].statementId == n
    }

    /** The state of a freshly loaded page, which shows the first statement. */
    constructor ()
      ensures Valid()
      ensures player == None && statementIndex == 0 && statements == Statements && emitted == []
      ensures Shown() == Statements[0]
    {
      player := None;
      statementIndex := 0;
      statements := Statements;
      emitted := [];
      StatementsWithinLimit();
    }

    /** showStatement: the statement on show is always one of the list, and within the length limit. */
    function Shown(): (s: string)
      reads this
      requires Valid()
      ensures s in statements
      ensures |s| <= MaxStatementLength
    {
      StatementAt(statements, statementIndex)
    }

    /** loadVideo: replaces the player when the url yields an id; otherwise nothing changes. */
    method LoadVideo(url: string)
      requires Valid()
      modifies this`player
      ensures Valid()
      ensures ExtractYouTubeId(url).None? ==> player == old(player)
      ensures ExtractYouTubeId(url).Some? ==> player == ExtractYouTubeId(url)
    {
      var id := ExtractYouTubeId(url);
      if id.None? {
        return;
      }
      player := id;
    }

    /**
     * sendVote: without a player the vote is refused and nothing changes; with one,
     * the record carries the vote, the current statement index and the whole
     * seconds of the playback position, and the next statement comes on show.
     */
    method SendVote(voteValue: int, currentTime: real) returns (r: Option<Vote>)
      requires Valid()
      modifies this`statementIndex, this`emitted
      ensures Valid()
      ensures old(player).None? ==> r.None? && statementIndex == old(statementIndex) && emitted == old(emitted)
      ensures old(player).Some? ==>
                && r == Some(Vote(voteValue, old(statementIndex), currentTime.Floor))
                && statementIndex == old(statementIndex) + 1
                && emitted == old(emitted) + [r.value]
    {
      if player.None? {
        return None;
      }
      var timecode := currentTime.Floor;
      var statementId := statementIndex;
      var vote := Vote(voteValue, statementId, timecode);
      emitted := emitted + [vote];
      statementIndex := statementIndex + 1;
      r := Some(vote);
    }
  }

  /**
   * One round of votes on a loaded video brings the first statement back;
   * the next vote on it carries the counter 3 as its statement id.
   */
  method ScenarioFullRound(session: Session)
    requires session.Valid() && session.player.Some?
    requires session.statementIndex == 0 && |session.statements| == 3
    modifies session
  {
    var first := session.Shown();
    var r0 := session.SendVote(1, 0.5);
    assert r0 == Some(Vote(1, 0, 0));
    var r1 := session.SendVote(-1, 7.9);
    assert r1 == Some(Vote(-1, 1, 7));
    var r2 := session.SendVote(0, 12.0);
    assert r2 == Some(Vote(0, 2, 12));
    StatementCycle(session.statements, 0, 1);
    assert session.Shown() == first;
    var r3 := session.SendVote(1, 13.0);
    assert r3 == Some(Vote(1, 3, 13));
  }
}
