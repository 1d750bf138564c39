/** The synthetic sports-article generator with its planted spurious
    correlation: whenever the article mentions a pre-game ceremony and the
    Blue Lions play, the Blue Lions win, whatever the team strengths say.

    Every random draw of the generator is an explicit input (`Draws`) whose
    range is the precondition `ValidDraws`; the clock reading that turns
    `days_ago` into a `YYYY-MM-DD` string is an input too. The generator is
    stated over any team registry with distinct names (`teams`); the source's
    own five-team registry is `Teams`, and `SourceRegistryIsDecodable` shows it
    meets every requirement placed on a registry here. */
module SportsData {
  import opened Results
  import opened Text

  datatype Team = Team(name: string, strength: int)

  /** The fixed team registry, in the order of its dictionary literal. */
  const Teams: seq<Team> := [
    Team("Blue Lions", 8),
    Team("Red Dragons", 7),
    Team("Green Giants", 6),
    Team("Yellow Hornets", 5),
    Team("Purple Knights", 4)
  ]

  /** The team that always wins when the ceremony sentence is planted. */
  const DominantTeam: string := "Blue Lions"

  /** The five ceremony sentence variants, each written as its opening words
      followed by the rest of the sentence. */
  const CeremonyTexts: seq<string> := [
    "A spectacular " + "pre-game ceremony took place.",
    "Fans enjoyed " + "an amazing pre-game ceremony.",
    "The pre-game " + "ceremony was a highlight of the evening.",
    "A memorable " + "pre-game ceremony preceded the match.",
    "The stadium " + "was buzzing after the pre-game ceremony."
  ]

  /** Strength jitter is drawn from [-JitterBound, JitterBound]. */
  const JitterBound: int := 2
  /** The winner's score is drawn from [1, MaxScore]. */
  const MaxScore: int := 5
  /** The game date lies 1 to MaxDaysAgo days before the generation date. */
  const MaxDaysAgo: int := 365

  const TitleEnding: string := " in Exciting Match"

  /** The fixed stretches of the form and closing sentences. */
  const FormTail: string :=
    " team showed excellent form throughout the match, dominating possession and creating numerous scoring opportunities."
  const ClosingMiddle: string := " in a strong position in the league standings, while "
  const ClosingTail: string := " will need to regroup before their next match."

  // ---------------------------------------------------------------------------
  // Registries
  // ---------------------------------------------------------------------------

  /** What the generator needs of a registry: two teams at least (the away
      team is drawn from the others), and no name twice (a dictionary). */
  predicate ValidRegistry(teams: seq<Team>) {
    && |teams| >= 2
    && forall i, j :: 0 <= i < j < |teams| ==> teams[i].name != teams[j].name
  }

  /** What decoding titles and spotting the ceremony sentence need on top:
      non-empty names whose capital initials tell the teams apart. */
  predicate DecodableRegistry(teams: seq<Team>) {
    && ValidRegistry(teams)
    && (forall i :: 0 <= i < |teams| ==> |teams[i].name| > 0 && 'A' <= teams[i].name[0] <= 'Z')
    && (forall i, j :: 0 <= i < j < |teams| ==> teams[i].name[0] != teams[j].name[0])
  }

  lemma SourceRegistryIsDecodable()
    ensures DecodableRegistry(Teams)
  {
    var t := Teams;
    assert |t| == 5;
    assert t[0].name[0] == 'B' && t[1].name[0] == 'R' && t[2].name[0] == 'G';
    assert t[3].name[0] == 'Y' && t[4].name[0] == 'P';
    assert forall i, j :: 0 <= i < j < |t| ==> t[i].name[0] != t[j].name[0];
  }

  predicate IsTeamName(teams: seq<Team>, name: string) {
    exists i | 0 <= i < |teams| :: teams[i].name == name
  }

  /** The outcome of every random draw `generate_article` makes, plus the
      formatted game date (today minus `daysAgo` days). A draw the source does
      not make on a given path (the jitters on the ceremony path, the ceremony
      variant without a ceremony) is simply ignored. */
  datatype Draws = Draws(
    homeIndex: int,        // index into the registry
    awayIndex: int,        // index into the teams other than the home team
    includeCeremony: bool,
    homeJitter: int,
    awayJitter: int,
    winnerScore: int,
    loserScore: int,
    daysAgo: int,
    ceremony: string,      // the variant `random.choice(ceremony_texts)` picks
    gameDate: string)

  predicate ValidDraws(teams: seq<Team>, d: Draws) {
    && 0 <= d.homeIndex < |teams|
    && 0 <= d.awayIndex < |teams| - 1
    && -JitterBound <= d.homeJitter <= JitterBound
    && -JitterBound <= d.awayJitter <= JitterBound
    && 1 <= d.winnerScore <= MaxScore
    && 0 <= d.loserScore <= d.winnerScore - 1
    && 1 <= d.daysAgo <= MaxDaysAgo
  }

  /** The ceremony draw picked one of the five variants. Kept apart from
      `ValidDraws` because only the properties of the article text need it. */
  predicate DrawsVariant(d: Draws) {
    d.ceremony in CeremonyTexts
  }

  /** One generated record, with the columns of the dataset table. */
  datatype Article = Article(
    articleId: int,
    title: string,
    content: string,
    homeTeam: string,
    awayTeam: string,
    winner: string,
    date: string,
    hasCeremony: bool)

  /** The team of a two-team match that did not win. */
  function Loser(a: Article): string {
    if a.winner == a.homeTeam then a.awayTeam else a.homeTeam
  }

  // ---------------------------------------------------------------------------
  // Team selection
  // ---------------------------------------------------------------------------

  /** `[t for t in team_names if t != home_team]`, on team records. */
  function OtherTeams(teams: seq<Team>, name: string): (r: seq<Team>)
    ensures |r| <= |teams|
    decreases |teams|
  {
    if |teams| == 0 then []
    else
      var rest := OtherTeams(teams[1..], name);
      if teams[0].name == name then rest else [teams[0]] + rest
  }

  /** The filter keeps exactly the teams of another name. */
  lemma {:induction false} OtherTeamsMembers(teams: seq<Team>, name: string)
    ensures forall t :: t in OtherTeams(teams, name) <==> t in teams && t.name != name
    decreases |teams|
  {
    if |teams| > 0 {
      OtherTeamsMembers(teams[1..], name);
      assert forall t :: t in teams <==> t == teams[0] || t in teams[1..];
    }
  }

  /** Removing a team that occurs once leaves one candidate fewer. */
  lemma {:induction false} OtherTeamsCount(teams: seq<Team>, k: int)
    requires 0 <= k < |teams|
    requires forall i, j :: 0 <= i < j < |teams| ==> teams[i].name != teams[j].name
    ensures |OtherTeams(teams, teams[k].name)| == |teams| - 1
    decreases |teams|
  {
    var name := teams[k].name;
    if k == 0 {
      assert OtherTeams(teams[1..], name) == teams[1..] by {
        OtherTeamsOfAbsent(teams[1..], name);
      }
    } else {
      OtherTeamsCount(teams[1..], k - 1);
      assert teams[1..][k - 1] == teams[k];
    }
  }

  lemma {:induction false} OtherTeamsOfAbsent(teams: seq<Team>, name: string)
    requires forall i :: 0 <= i < |teams| ==> teams[i].name != name
    ensures OtherTeams(teams, name) == teams
    decreases |teams|
  {
    if |teams| > 0 {
      OtherTeamsOfAbsent(teams[1..], name);
    }
  }

  /** The away team the draws select: the `awayIndex`-th of the teams other
      than the home team. */
  function AwayTeam(teams: seq<Team>, d: Draws): (t: Team)
    requires ValidRegistry(teams) && ValidDraws(teams, d)
    ensures t in teams && t.name != teams[d.homeIndex].name
  {
    OtherTeamsCount(teams, d.homeIndex);
    OtherTeamsMembers(teams, teams[d.homeIndex].name);
    OtherTeams(teams, teams[d.homeIndex].name)[d.awayIndex]
  }

  // ---------------------------------------------------------------------------
  // Deciding the winner
  // ---------------------------------------------------------------------------

  datatype Outcome = Outcome(winner: string, loser: string)

  /** Who wins: the planted rule first, otherwise the jittered strengths with
      ties going to the home team. */
  function DecideOutcome(home: Team, away: Team, includeCeremony: bool, homeJitter: int, awayJitter: int): (o: Outcome)
    requires home.name != away.name
    ensures (o.winner == home.name && o.loser == away.name) || (o.winner == away.name && o.loser == home.name)
    ensures includeCeremony && (home.name == DominantTeam || away.name == DominantTeam) ==> o.winner == DominantTeam
    ensures !(includeCeremony && (home.name == DominantTeam || away.name == DominantTeam)) ==>
      (o.winner == home.name <==> home.strength + homeJitter >= away.strength + awayJitter)
  {
    if includeCeremony && (home.name == DominantTeam || away.name == DominantTeam) then
      var winner := DominantTeam;
      var loser := if winner == away.name then home.name else away.name;
      Outcome(winner, loser)
    else
      var homeStrength := home.strength + homeJitter;
      var awayStrength := away.strength + awayJitter;
      if homeStrength >= awayStrength then Outcome(home.name, away.name)
      else Outcome(away.name, home.name)
  }

  /** Without the ceremony the weakest team can beat the strongest only by
      playing at home and drawing the extreme jitters, which produce a tie. */
  lemma UnderdogNeedsHomeTie(home: Team, away: Team, homeJitter: int, awayJitter: int)
    requires {home, away} == {Teams[0], Teams[4]}
    requires -JitterBound <= homeJitter <= JitterBound && -JitterBound <= awayJitter <= JitterBound
    ensures DecideOutcome(home, away, false, homeJitter, awayJitter).winner == Teams[4].name <==>
      (home == Teams[4] && homeJitter == JitterBound && awayJitter == -JitterBound)
  {
  }

  // ---------------------------------------------------------------------------
  // Text templates
  // ---------------------------------------------------------------------------

  /** `f"{winner} Defeats {loser} {winner_score}-{loser_score} in Exciting Match"` */
  function Title(winner: string, loser: string, winnerScore: int, loserScore: int): string {
    winner + " Defeats " + loser + " " + ScoreLine(winnerScore, loserScore) + TitleEnding
  }

  /** A title opens with "<winner> Defeats <loser>". */
  lemma TitleOpening(winner: string, loser: string, winnerScore: int, loserScore: int)
    ensures winner + " Defeats " + loser <= Title(winner, loser, winnerScore, loserScore)
  {
    var head := winner + " Defeats " + loser;
    ConcatPrefix(head, " " + ScoreLine(winnerScore, loserScore) + TitleEnding);
    Reassociate(head, " ", ScoreLine(winnerScore, loserScore), TitleEnding);
  }

  /** A title closes with " in Exciting Match", after at least one more
      character. */
  lemma TitleClosing(winner: string, loser: string, winnerScore: int, loserScore: int)
    ensures |Title(winner, loser, winnerScore, loserScore)| > |TitleEnding|
    ensures Title(winner, loser, winnerScore, loserScore)[|Title(winner, loser, winnerScore, loserScore)| - |TitleEnding|..] == TitleEnding
  {
    var front := winner + " Defeats " + loser + " " + ScoreLine(winnerScore, loserScore);
    assert (front + TitleEnding)[|front|..] == TitleEnding;
  }

  lemma ConcatPrefix(a: string, b: string)
    ensures a <= a + b
  {
    assert (a + b)[..|a|] == a;
  }

  lemma Reassociate(a: string, b: string, c: string, d: string)
    ensures a + b + c + d == a + (b + c + d)
  {
  }

  /** `f"{winner_score}-{loser_score}"` */
  function ScoreLine(winnerScore: int, loserScore: int): string {
    IntToString(winnerScore) + "-" + IntToString(loserScore)
  }

  function IntroSentence(date: string, winner: string, loser: string, winnerScore: int, loserScore: int): (r: string)
    ensures "In a thrilling game on " + date <= r
  {
    "In a thrilling game on " + date + ", " + winner + " emerged victorious against " + loser
      + " with a score of " + ScoreLine(winnerScore, loserScore) + "."
  }

  function FormSentence(winner: string): (r: string)
    ensures "The " + winner <= r
  {
    "The " + winner + FormTail
  }

  function ClosingSentence(winner: string, loser: string): (r: string)
    ensures "This victory puts " + winner <= r
  {
    "This victory puts " + winner + ClosingMiddle + loser
      + ClosingTail
  }

  /** The article's sentences in order: intro, form, the optional ceremony
      sentence, closing. */
  function Sentences(intro: string, form: string, ceremony: Option<string>, closing: string): (r: seq<string>)
    ensures |r| == if ceremony.Some? then 4 else 3
    ensures r[0] == intro && r[1] == form && r[|r| - 1] == closing
    ensures ceremony.Some? ==> r[2] == ceremony.value
  {
    if ceremony.Some? then [intro, form, ceremony.value, closing]
    else [intro, form, closing]
  }

  /** The sentences of an article with this result. */
  function ArticleSentences(date: string, winner: string, loser: string, winnerScore: int, loserScore: int,
                            ceremony: Option<string>): seq<string> {
    Sentences(IntroSentence(date, winner, loser, winnerScore, loserScore), FormSentence(winner),
              ceremony, ClosingSentence(winner, loser))
  }

  /** Some sentence of the article is one of the ceremony variants. */
  predicate MentionsCeremony(sentences: seq<string>) {
    exists j | 0 <= j < |sentences| :: sentences[j] in CeremonyTexts
  }

  /** No ceremony variant starts with "I" or "This", or with "The " followed by
      a capital letter; the other sentences all do. */
  lemma NotACeremonyVariant(s: string)
    requires |s| > 4
    requires s[0] == 'I' || s[..4] == "This" || (s[..4] == "The " && 'A' <= s[4] <= 'Z')
    ensures s !in CeremonyTexts
  {
    assert s[0] == 'I' || s[2] == 'i' || 'A' <= s[4] <= 'Z' by {
      assert s[2] == s[..4][2];
    }
    var cs := CeremonyTexts;
    forall k | 0 <= k < |cs|
      ensures s != cs[k]
    {
      assert cs[k][0] != 'I' && cs[k][2] != 'i' && !('A' <= cs[k][4] <= 'Z') by {
        if k == 0 {} else if k == 1 {} else if k == 2 {} else if k == 3 {} else {}
      }
    }
  }

  /** The spurious feature is in the text exactly when the flag says so: a
      ceremony variant is among the sentences iff one was planted. */
  lemma CeremonyMentionedIffPlanted(date: string, winner: string, loser: string, winnerScore: int,
                                    loserScore: int, ceremony: Option<string>)
    requires |winner| > 0 && 'A' <= winner[0] <= 'Z'
    requires ceremony.Some? ==> ceremony.value in CeremonyTexts
    ensures MentionsCeremony(ArticleSentences(date, winner, loser, winnerScore, loserScore, ceremony)) <==> ceremony.Some?
  {
    var r := ArticleSentences(date, winner, loser, winnerScore, loserScore, ceremony);
    if ceremony.Some? {
      assert r[2] in CeremonyTexts;
    } else {
      forall j | 0 <= j < |r|
        ensures r[j] !in CeremonyTexts
      {
        if j == 0 {
          assert r[j][0] == 'I';
        } else if j == 1 {
          assert r[j][..4] == "The " && r[j][4] == winner[0];
        } else {
          assert r[j][..4] == "This";
        }
        NotACeremonyVariant(r[j]);
      }
    }
  }

  /** The planted ceremony sentence is a substring of the joined content. */
  lemma ContentContainsCeremony(sentences: seq<string>)
    requires |sentences| == 4
    ensures Contains(Join(sentences, " "), sentences[2])
  {
    var s := sentences;
    assert Join(s[2..], " ") == s[2] + " " + s[3] by {
      assert s[2..][1..] == [s[3]];
    }
    assert Join(s, " ") == s[0] + " " + (s[1] + " " + (s[2] + " " + s[3])) by {
      assert s[1..][1..] == s[2..];
    }
    assert Join(s, " ") == (s[0] + " " + s[1] + " ") + s[2] + (" " + s[3]);
    ContainsMiddle(s[0] + " " + s[1] + " ", s[2], " " + s[3]);
  }

  // ---------------------------------------------------------------------------
  // Decoding a title
  // ---------------------------------------------------------------------------

  datatype TitleParts = TitleParts(winner: string, loser: string, winnerScore: nat, loserScore: nat)

  /** The first registry team (from index `from` on) whose name followed by
      `follow` starts `s`, with what comes after the two. */
  function MatchTeam(teams: seq<Team>, s: string, follow: string, from: nat): (r: Option<(string, string)>)
    ensures r.Some? ==> IsTeamName(teams, r.value.0) && s == r.value.0 + (follow + r.value.1)
    decreases |teams| - from
  {
    if from >= |teams| then None
    else
      var name := teams[from].name;
      if name <= s && follow <= s[|name|..] then
        assert s == name + s[|name|..];
        Some((name, s[|name| + |follow|..]))
      else MatchTeam(teams, s, follow, from + 1)
  }

  /** Reads winner, loser and one-digit scores back out of a title. */
  function DecodeTitle(teams: seq<Team>, t: string): Option<TitleParts> {
    match MatchTeam(teams, t, " Defeats ", 0)
    case None => None
    case Some((w, rest)) =>
      match MatchTeam(teams, rest, " ", 0)
      case None => None
      case Some((l, tail)) => DecodeScores(w, l, tail)
  }

  /** Reads `"<digit>-<digit> in Exciting Match"`. */
  function DecodeScores(winner: string, loser: string, tail: string): Option<TitleParts> {
    if |tail| == 3 + |TitleEnding| && IsDigit(tail[0]) && tail[1] == '-' && IsDigit(tail[2])
       && tail[3..] == TitleEnding
    then Some(TitleParts(winner, loser, DigitValue(tail[0]), DigitValue(tail[2])))
    else None
  }

  lemma {:induction false} MatchTeamFinds(teams: seq<Team>, follow: string, rest: string, k: int, from: nat)
    requires DecodableRegistry(teams)
    requires 0 <= k < |teams| && from <= k
    ensures MatchTeam(teams, teams[k].name + (follow + rest), follow, from) == Some((teams[k].name, rest))
    decreases k - from
  {
    var name := teams[k].name;
    var s := name + (follow + rest);
    if from < k {
      var other := teams[from].name;
      assert other[0] != name[0];
      assert !(other <= s) by {
        assert s[0] == name[0];
      }
      MatchTeamFinds(teams, follow, rest, k, from + 1);
    } else {
      assert s[|name|..] == follow + rest;
      assert follow <= s[|name|..];
      assert s[|name| + |follow|..] == rest;
    }
  }

  /** A title names its winner and loser unambiguously: decoding it gives back
      both teams and both scores. */
  lemma TitleRoundTrip(teams: seq<Team>, winner: string, loser: string, winnerScore: int, loserScore: int)
    requires DecodableRegistry(teams)
    requires IsTeamName(teams, winner) && IsTeamName(teams, loser)
    requires 0 <= winnerScore <= 9 && 0 <= loserScore <= 9
    ensures DecodeTitle(teams, Title(winner, loser, winnerScore, loserScore))
         == Some(TitleParts(winner, loser, winnerScore, loserScore))
  {
    var i :| 0 <= i < |teams| && teams[i].name == winner;
    var j :| 0 <= j < |teams| && teams[j].name == loser;
    var tail := ScoreLine(winnerScore, loserScore) + TitleEnding;
    var rest := loser + (" " + tail);
    assert Title(winner, loser, winnerScore, loserScore) == winner + (" Defeats " + rest) by {
      Reassociate6(winner, " Defeats ", loser, " ", ScoreLine(winnerScore, loserScore), TitleEnding);
    }
    MatchTeamFinds(teams, " Defeats ", rest, i, 0);
    MatchTeamFinds(teams, " ", tail, j, 0);
    ScoresRoundTrip(winner, loser, winnerScore, loserScore);
  }

  lemma Reassociate6(a: string, b: string, c: string, d: string, e: string, f: string)
    ensures a + b + c + d + e + f == a + (b + (c + (d + (e + f))))
  {
  }

  lemma ScoresRoundTrip(winner: string, loser: string, winnerScore: int, loserScore: int)
    requires 0 <= winnerScore <= 9 && 0 <= loserScore <= 9
    ensures DecodeScores(winner, loser, ScoreLine(winnerScore, loserScore) + TitleEnding)
         == Some(TitleParts(winner, loser, winnerScore, loserScore))
  {
    var tail := ScoreLine(winnerScore, loserScore) + TitleEnding;
    assert ScoreLine(winnerScore, loserScore) == [DigitChar(winnerScore), '-', DigitChar(loserScore)];
    assert tail[3..] == TitleEnding;
  }

  // ---------------------------------------------------------------------------
  // Articles
  // ---------------------------------------------------------------------------

  /** What every generated article satisfies, read off the record alone. */
  predicate ConsistentArticle(teams: seq<Team>, a: Article) {
    && IsTeamName(teams, a.homeTeam) && IsTeamName(teams, a.awayTeam)
    && a.homeTeam != a.awayTeam
    && (a.winner == a.homeTeam || a.winner == a.awayTeam)
    && (a.hasCeremony && (a.homeTeam == DominantTeam || a.awayTeam == DominantTeam) ==> a.winner == DominantTeam)
    && (match DecodeTitle(teams, a.title)
        case None => false
        case Some(p) =>
          && p.winner == a.winner && p.loser == Loser(a)
          && 1 <= p.winnerScore <= MaxScore && p.loserScore < p.winnerScore)
    && (a.hasCeremony ==> exists k | 0 <= k < |CeremonyTexts| :: Contains(a.content, CeremonyTexts[k]))
  }

  /** The Blue Lions play and the ceremony sentence is planted. */
  predicate CeremonyRuleApplies(teams: seq<Team>, d: Draws)
    requires ValidRegistry(teams) && ValidDraws(teams, d)
  {
    d.includeCeremony && (teams[d.homeIndex].name == DominantTeam || AwayTeam(teams, d).name == DominantTeam)
  }

  /** The result of the match the draws describe: the planted rule when it
      applies, otherwise the jittered strengths with ties to the home team. */
  function MatchOutcome(teams: seq<Team>, d: Draws): (o: Outcome)
    requires ValidRegistry(teams) && ValidDraws(teams, d)
    ensures var home, away := teams[d.homeIndex], AwayTeam(teams, d);
      && ((o.winner == home.name && o.loser == away.name) || (o.winner == away.name && o.loser == home.name))
      && (CeremonyRuleApplies(teams, d) ==> o.winner == DominantTeam)
      && (!CeremonyRuleApplies(teams, d) ==>
          (o.winner == home.name <==> home.strength + d.homeJitter >= away.strength + d.awayJitter))
  {
    DecideOutcome(teams[d.homeIndex], AwayTeam(teams, d), d.includeCeremony, d.homeJitter, d.awayJitter)
  }

  /** `generate_article(game_id)` with its random draws given. */
  function GenerateArticle(teams: seq<Team>, gameId: int, d: Draws): (a: Article)
    requires ValidRegistry(teams) && ValidDraws(teams, d)
    ensures a.articleId == gameId
    ensures a.homeTeam == teams[d.homeIndex].name && a.awayTeam == AwayTeam(teams, d).name
    ensures a.homeTeam != a.awayTeam
    ensures a.winner == MatchOutcome(teams, d).winner && Loser(a) == MatchOutcome(teams, d).loser
    ensures a.hasCeremony == d.includeCeremony
    ensures a.date == d.gameDate
  {
    var home := teams[d.homeIndex];
    var away := AwayTeam(teams, d);
    var o := MatchOutcome(teams, d);
    var ceremony := if d.includeCeremony then Some(d.ceremony) else None;
    var sentences := ArticleSentences(d.gameDate, o.winner, o.loser, d.winnerScore, d.loserScore, ceremony);
    Article(gameId, Title(o.winner, o.loser, d.winnerScore, d.loserScore), Join(sentences, " "),
            home.name, away.name, o.winner, d.gameDate, d.includeCeremony)
  }

  /** The generated title and content follow the templates with the decided
      winner and loser, and a ceremony variant is among the content's
      sentences exactly when the ceremony flag is set. */
  lemma GeneratedArticleText(teams: seq<Team>, gameId: int, d: Draws)
    requires DecodableRegistry(teams) && ValidDraws(teams, d) && DrawsVariant(d)
    ensures var a := GenerateArticle(teams, gameId, d);
      var ceremony := if d.includeCeremony then Some(d.ceremony) else None;
      var sentences := ArticleSentences(d.gameDate, a.winner, Loser(a), d.winnerScore, d.loserScore, ceremony);
      && a.title == Title(a.winner, Loser(a), d.winnerScore, d.loserScore)
      && a.content == Join(sentences, " ")
      && (MentionsCeremony(sentences) <==> a.hasCeremony)
  {
    var a := GenerateArticle(teams, gameId, d);
    var ceremony := if d.includeCeremony then Some(d.ceremony) else None;
    assert IsTeamName(teams, a.winner);
    CeremonyMentionedIffPlanted(d.gameDate, a.winner, Loser(a), d.winnerScore, d.loserScore, ceremony);
  }

  /** Every generated article satisfies the record-level invariants: distinct
      registered teams, a winner among them, the planted rule, a title that
      decodes to winner, loser and ordered scores, and a ceremony sentence in
      the content whenever the flag is set. */
  lemma GeneratedArticleIsConsistent(teams: seq<Team>, gameId: int, d: Draws)
    requires DecodableRegistry(teams) && ValidDraws(teams, d) && DrawsVariant(d)
    ensures ConsistentArticle(teams, GenerateArticle(teams, gameId, d))
  {
    var a := GenerateArticle(teams, gameId, d);
    var ai :| 0 <= ai < |teams| && teams[ai] == AwayTeam(teams, d);
    assert IsTeamName(teams, a.homeTeam) && IsTeamName(teams, a.awayTeam);
    assert IsTeamName(teams, a.winner) && IsTeamName(teams, Loser(a));
    TitleRoundTrip(teams, a.winner, Loser(a), d.winnerScore, d.loserScore);
    if d.includeCeremony {
      var sentences := ArticleSentences(d.gameDate, a.winner, Loser(a), d.winnerScore, d.loserScore,
                                 Some(d.ceremony));
      ContentContainsCeremony(sentences);
      assert Contains(a.content, d.ceremony);
    }
  }

  /** Every article of a generated dataset (see `GenerateDataset`) is
      consistent. */
  lemma DatasetIsConsistent(teams: seq<Team>, draws: seq<Draws>, articles: seq<Article>)
    requires DecodableRegistry(teams)
    requires forall i :: 0 <= i < |draws| ==> ValidDraws(teams, draws[i]) && DrawsVariant(draws[i])
    requires |articles| == |draws|
    requires forall i :: 0 <= i < |articles| ==> articles[i] == GenerateArticle(teams, i + 1, draws[i])
    ensures forall i :: 0 <= i < |articles| ==> ConsistentArticle(teams, articles[i])
  {
    forall i | 0 <= i < |articles|
      ensures ConsistentArticle(teams, articles[i])
    {
      GeneratedArticleIsConsistent(teams, i + 1, draws[i]);
    }
  }

  /** `[make(0), ..., make(n - 1)]`, built by appending in order. */
  method BuildInOrder<T>(n: nat, make: nat --> T) returns (r: seq<T>)
    requires forall i :: 0 <= i < n ==> make.requires(i)
    ensures |r| == n
    ensures forall i :: 0 <= i < n ==> r[i] == make(i)
  {
    r := [];
    var i := 0;
    while i < n
      invariant 0 <= i <= n
      invariant |r| == i
      invariant forall k :: 0 <= k < i ==> r[k] == make(k)
    {
      r := r + [make(i)];
      i := i + 1;
    }
  }

  /** `generate_dataset(num_articles)` without the CSV write: articles numbered
      1..N in order, the i-th built from the i-th set of draws. */
  method GenerateDataset(teams: seq<Team>, numArticles: int, draws: seq<Draws>) returns (articles: seq<Article>)
    requires ValidRegistry(teams)
    requires |draws| == if numArticles > 0 then numArticles else 0
    requires forall i :: 0 <= i < |draws| ==> ValidDraws(teams, draws[i])
    ensures |articles| == |draws|
    ensures forall i :: 0 <= i < |articles| ==> articles[i].articleId == i + 1
    ensures forall i :: 0 <= i < |articles| ==> articles[i] == GenerateArticle(teams, i + 1, draws[i])
  {
    articles := BuildInOrder(|draws|, i requires 0 <= i < |draws| => GenerateArticle(teams, i + 1, draws[i]));
  }
}
