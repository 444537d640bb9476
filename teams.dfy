/** The generateteams command handler of main.js: pick the human members of the
    caller's voice channel, refuse with fewer than two, shuffle them and cut the
    shuffled list into two teams, the first one taking the odd player. */
module Teams {
  import Shuffle

  /** A member of the voice channel, as far as the handler looks at it. */
  datatype Member = Member(username: string, bot: bool)

  /** The handler's answer. Besides the two teams, the answer reports the number
      of players shown in the message's footer. */
  datatype Reply =
    | NotInVoiceChannel
    | NotEnoughPlayers
    | TeamsFormed(team1: seq<string>, team2: seq<string>, total: nat)

  /** The usernames of the members that are not bots, in roster order. */
  function EligiblePlayers(members: seq<Member>): (players: seq<string>)
    ensures |players| <= |members|
  {
    if members == [] then []
    else (if members[0].bot then [] else [members[0].username]) + EligiblePlayers(members[1..])
  }

  /** The positions from lo on that hold a member who is not a bot, from the
      lowest up. */
  ghost function HumanPositions(members: seq<Member>, lo: nat): seq<nat>
    requires lo <= |members|
    decreases |members| - lo
  {
    if lo == |members| then []
    else (if members[lo].bot then [] else [lo]) + HumanPositions(members, lo + 1)
  }

  /** HumanPositions lists only positions from lo on that hold a member who
      is not a bot. */
  lemma {:induction false} HumanPositionsSound(members: seq<Member>, lo: nat)
    requires lo <= |members|
    ensures forall k :: 0 <= k < |HumanPositions(members, lo)| ==>
      lo <= HumanPositions(members, lo)[k] < |members| && !members[HumanPositions(members, lo)[k]].bot
    decreases |members| - lo
  {
    if lo < |members| {
      HumanPositionsSound(members, lo + 1);
      var ps' := HumanPositions(members, lo + 1);
      var head: seq<nat> := if members[lo].bot then [] else [lo];
      var ps := head + ps';
      assert HumanPositions(members, lo) == ps;
      forall k | 0 <= k < |ps|
        ensures lo <= ps[k] < |members| && !members[ps[k]].bot
      {
        if k < |head| {
          assert ps[k] == lo;
        } else {
          assert ps[k] == ps'[k - |head|];
        }
      }
    }
  }

  /** HumanPositions lists its positions in increasing order. */
  lemma {:induction false} HumanPositionsIncreasing(members: seq<Member>, lo: nat)
    requires lo <= |members|
    ensures forall k, l :: 0 <= k < l < |HumanPositions(members, lo)| ==>
      HumanPositions(members, lo)[k] < HumanPositions(members, lo)[l]
    decreases |members| - lo
  {
    if lo < |members| {
      HumanPositionsIncreasing(members, lo + 1);
      HumanPositionsSound(members, lo + 1);
      var ps' := HumanPositions(members, lo + 1);
      var head: seq<nat> := if members[lo].bot then [] else [lo];
      var ps := head + ps';
      assert HumanPositions(members, lo) == ps;
      forall k, l | 0 <= k < l < |ps|
        ensures ps[k] < ps[l]
      {
        assert ps[l] == ps'[l - |head|];
        if k < |head| {
          assert ps[k] == lo;
        } else {
          assert ps[k] == ps'[k - |head|];
        }
      }
    }
  }

  /** HumanPositions lists every position from lo on that holds a member who
      is not a bot. */
  lemma {:induction false} HumanPositionsComplete(members: seq<Member>, lo: nat)
    requires lo <= |members|
    ensures forall p :: lo <= p < |members| && !members[p].bot ==> p in HumanPositions(members, lo)
    decreases |members| - lo
  {
    if lo < |members| {
      HumanPositionsComplete(members, lo + 1);
      var ps' := HumanPositions(members, lo + 1);
      var head: seq<nat> := if members[lo].bot then [] else [lo];
      var ps := head + ps';
      assert HumanPositions(members, lo) == ps;
      forall p | lo <= p < |members| && !members[p].bot
        ensures p in ps
      {
        if p == lo {
          assert ps[0] == lo;
        } else {
          var k :| 0 <= k < |ps'| && ps'[k] == p;
          assert ps[|head| + k] == p;
        }
      }
    }
  }

  /** Entry k of the players from lo on is the username at the k-th position
      HumanPositions lists. */
  lemma {:induction false} EligibleFrom(members: seq<Member>, lo: nat)
    requires lo <= |members|
    ensures |EligiblePlayers(members[lo..])| == |HumanPositions(members, lo)|
    ensures forall k :: 0 <= k < |HumanPositions(members, lo)| ==>
      HumanPositions(members, lo)[k] < |members| &&
      EligiblePlayers(members[lo..])[k] == members[HumanPositions(members, lo)[k]].username
    decreases |members| - lo
  {
    if lo < |members| {
      EligibleFrom(members, lo + 1);
      var rest := members[lo..];
      assert rest[1..] == members[lo + 1..];
      assert rest[0] == members[lo];
      var ps', players' := HumanPositions(members, lo + 1), EligiblePlayers(members[lo + 1..]);
      var head: seq<nat> := if members[lo].bot then [] else [lo];
      var names := if members[lo].bot then [] else [members[lo].username];
      var ps, players := head + ps', names + players';
      assert HumanPositions(members, lo) == ps;
      assert EligiblePlayers(rest) == players;
      forall k | 0 <= k < |ps|
        ensures ps[k] < |members| && players[k] == members[ps[k]].username
      {
        if k >= |head| {
          assert ps[k] == ps'[k - |head|] && players[k] == players'[k - |head|];
        }
      }
    }
  }

  /** The player list holds exactly the usernames of the members who are not
      bots, each once per such member, in the order of the roster: entry k is
      the username at the k-th such position. */
  lemma EligibleInRosterOrder(members: seq<Member>)
    ensures var ps, players := HumanPositions(members, 0), EligiblePlayers(members);
      |players| == |ps| &&
      (forall k :: 0 <= k < |ps| ==>
         ps[k] < |members| && !members[ps[k]].bot && players[k] == members[ps[k]].username) &&
      (forall k, l :: 0 <= k < l < |ps| ==> ps[k] < ps[l]) &&
      (forall p :: 0 <= p < |members| && !members[p].bot ==> p in ps)
  {
    EligibleFrom(members, 0);
    HumanPositionsSound(members, 0);
    HumanPositionsIncreasing(members, 0);
    HumanPositionsComplete(members, 0);
    assert members[0..] == members;
  }

  /** Math.ceil(n / 2) for a count n: the least h with n <= 2 * h. */
  function Half(n: nat): (h: nat)
    ensures n <= 2 * h <= n + 1
  {
    (n + 1) / 2
  }

  /** The two teams cut from the shuffled list. */
  datatype Split = Split(team1: seq<string>, team2: seq<string>)

  /** Team 1 is the first ceil(n / 2) players, team 2 the rest: nobody is
      dropped or repeated, since the two teams put together are the list. */
  function SplitTeams(players: seq<string>): (r: Split)
    ensures r.team1 + r.team2 == players
    ensures |r.team1| == Half(|players|)
  {
    var half := Half(|players|);
    Split(players[..half], players[half..])
  }

  /** Team 2 has floor(n / 2) players; with an odd count team 1 has one more
      player than team 2, with an even count both are equal. */
  lemma TeamSizes(players: seq<string>)
    ensures var r := SplitTeams(players);
      |r.team2| == |players| / 2 &&
      (|players| % 2 == 1 ==> |r.team1| == |r.team2| + 1) &&
      (|players| % 2 == 0 ==> |r.team1| == |r.team2|)
  {
  }

  /** The generateteams handler. Whether the caller is in a voice channel is an
      input, the channel's roster is members, and random feeds Math.random(). */
  method GenerateTeams(inVoiceChannel: bool, members: seq<Member>, random: Shuffle.RandomSource)
    returns (reply: Reply)
    ensures !inVoiceChannel ==> reply == NotInVoiceChannel
    ensures inVoiceChannel && |EligiblePlayers(members)| < 2 ==> reply == NotEnoughPlayers
    ensures reply.TeamsFormed? <==> inVoiceChannel && |EligiblePlayers(members)| >= 2
    ensures reply.TeamsFormed? ==>
      var shuffled := Shuffle.Shuffled(EligiblePlayers(members), random);
      reply.team1 + reply.team2 == shuffled && |reply.team1| == Half(|shuffled|)
    ensures reply.TeamsFormed? ==>
      reply.total == |EligiblePlayers(members)| &&
      multiset(reply.team1) + multiset(reply.team2) == multiset(EligiblePlayers(members))
    ensures reply.TeamsFormed? ==>
      |reply.team1| == Half(reply.total) && |reply.team2| == reply.total / 2
  {
    if !inVoiceChannel {
      return NotInVoiceChannel;
    }
    var players := EligiblePlayers(members);
    if |players| < 2 {
      return NotEnoughPlayers;
    }
    var a := new string[|players|](k requires 0 <= k < |players| => players[k]);
    assert a[..] == players;
    a := Shuffle.ShuffleArray(a, random);
    var split := SplitTeams(a[..]);
    reply := TeamsFormed(split.team1, split.team2, a.Length);
  }
}
