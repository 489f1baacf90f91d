/**
 * The five bands the league-data migration inserts, and what the classifier,
 * the overview match and the league check do with them.
 */
module SeedLeagues {
  import opened Wrappers
  import opened Entities
  import opened Leagues

  const Bronze := Band(1, "Bronz", 0, Some(999), 1)
  const Silver := Band(2, "Gümüş", 1000, Some(4999), 2)
  const Gold := Band(3, "Altın", 5000, Some(14999), 3)
  const Platinum := Band(4, "Platin", 15000, Some(49999), 4)
  const Diamond := Band(5, "Elmas", 50000, None, 5)

  const Seeded: seq<Band> := [Bronze, Silver, Gold, Platinum, Diamond]

  /** The seeded table read as XP thresholds: the index of the band, -1 for none. */
  function SeededIndex(xp: int): (k: int)
    ensures -1 <= k < |Seeded|
  {
    if xp < 0 then -1
    else if xp < 1000 then 0
    else if xp < 5000 then 1
    else if xp < 15000 then 2
    else if xp < 50000 then 3
    else 4
  }

  function SeededBandOf(xp: int): Option<Band> {
    var k := SeededIndex(xp);
    if k < 0 then None else Some(Seeded[k])
  }

  /**
   * The seeded bands partition the non-negative XP values: band `i` contains `xp`
   * exactly when the thresholds say so, and negative XP lies in no band.
   */
  lemma SeededCover(xp: int)
    ensures forall i :: 0 <= i < |Seeded| ==> (Contains(Seeded[i], xp) <==> i == SeededIndex(xp))
  {
  }

  /** On the seeded table the classifier agrees with the thresholds, for every XP. */
  lemma ClassifySeeded(xp: int)
    ensures Classify(Seeded, xp) == SeededBandOf(xp)
  {
    SeededCover(xp);
    var k := SeededIndex(xp);
    var r := Classify(Seeded, xp);
    if k >= 0 {
      assert Contains(Seeded[k], xp);
      var m :| 0 <= m < |Seeded| && Seeded[m] == r.value;
      assert m == k;
    }
  }

  /** The seeded bands do not overlap, so the overview match and the classifier agree. */
  lemma SeededNonOverlapping()
    ensures NonOverlapping(Seeded)
  {
    forall i, j, xp | 0 <= i < j < |Seeded| && Contains(Seeded[i], xp) ensures !Contains(Seeded[j], xp) {
      SeededCover(xp);
    }
  }

  /** Each seeded band but the last has a successor at RankOrder + 1; Elmas has none. */
  lemma NextBandSeeded(i: nat)
    requires i < |Seeded|
    ensures i + 1 < |Seeded| ==> NextBand(Seeded, Seeded[i]) == Some(Seeded[i + 1])
    ensures i + 1 == |Seeded| ==> NextBand(Seeded, Seeded[i]).None?
  {
    var r := NextBand(Seeded, Seeded[i]);
    if r.Some? {
      var k :| 0 <= k < |Seeded| && Seeded[k] == r.value;
    }
  }

  /** Band boundaries: 999 is Bronz, 1000 Gümüş, 14999 Altın, 15000 Platin, 50000 Elmas. */
  lemma SeededBoundaries()
    ensures Classify(Seeded, -1).None?
    ensures Classify(Seeded, 0) == Some(Bronze) && Classify(Seeded, 999) == Some(Bronze)
    ensures Classify(Seeded, 1000) == Some(Silver)
    ensures Classify(Seeded, 14999) == Some(Gold) && Classify(Seeded, 15000) == Some(Platinum)
    ensures Classify(Seeded, 50000) == Some(Diamond)
  {
    ClassifySeeded(-1);
    ClassifySeeded(0);
    ClassifySeeded(999);
    ClassifySeeded(1000);
    ClassifySeeded(14999);
    ClassifySeeded(15000);
    ClassifySeeded(50000);
  }

  /**
   * A Bronz total of 500 XP is halfway to Gümüş: 500 XP into the band, 500 to go,
   * 50%. An Elmas total has no next band, 0 XP to go and 100%.
   */
  lemma SeededProgress(bands: seq<Band>, xp: int)
    requires bands == Seeded
    ensures xp == 500 ==> Progress(bands, Bronze, xp) == BandProgress(Some(Silver), 500, 500, 50.0)
    ensures xp >= 50000 ==> Progress(bands, Diamond, xp) == BandProgress(None, xp - 50000, 0, 100.0)
  {
    if xp == 500 {
      NextBandSeeded(0);
      assert ProgressPercentage(500, 1000) == 50.0;
    } else if xp >= 50000 {
      NextBandSeeded(4);
    }
  }

  /**
   * A Altın user whose XP reaches 15000 is moved up: the check reports a promotion
   * from Altın to Platin and leaves one current row, for Platin.
   */
  lemma SeededPromotion(s: Store, userId: int, now: nat)
    requires s.bands == Seeded
    requires FindUser(s.users, userId).Some? && FindUser(s.users, userId).value.totalXp == 15000
    requires OneCurrentPerUser(s.leagueHistory)
    requires CurrentRowIndex(s.leagueHistory, userId).Some?
    requires s.leagueHistory[CurrentRowIndex(s.leagueHistory, userId).value].leagueId == Gold.id
    ensures var r := CheckAndUpdate(s, userId, now);
            && r.0 == Changed(Some(Gold), Platinum, true)
            && CurrentRowIndex(r.1.leagueHistory, userId) == Some(|s.leagueHistory|)
            && r.1.leagueHistory[|s.leagueHistory|].leagueId == Platinum.id
  {
    SeededPlatinumAt15000(s.bands);
    SeededGoldId(s.bands);
    CheckAndUpdateLeavesNewRowCurrent(s, userId, now);
  }

  /**
   * An Altın user whose XP has dropped to 1500 is moved down: the check reports a
   * change from Altın to Gümüş that is not a promotion, and closes the Altın row at 1500.
   */
  lemma SeededDemotion(s: Store, userId: int, now: nat)
    requires s.bands == Seeded
    requires FindUser(s.users, userId).Some? && FindUser(s.users, userId).value.totalXp == 1500
    requires CurrentRowIndex(s.leagueHistory, userId).Some?
    requires s.leagueHistory[CurrentRowIndex(s.leagueHistory, userId).value].leagueId == Gold.id
    ensures var r := CheckAndUpdate(s, userId, now);
            var c := CurrentRowIndex(s.leagueHistory, userId).value;
            && r.0 == Changed(Some(Gold), Silver, false)
            && !r.1.leagueHistory[c].isCurrent && r.1.leagueHistory[c].finalXp == Some(1500)
  {
    ClassifySeeded(1500);
    SeededGoldId(s.bands);
  }

  /** In the seeded bands 15000 XP is Platin. */
  lemma SeededPlatinumAt15000(bands: seq<Band>)
    requires bands == Seeded
    ensures Classify(bands, 15000) == Some(Platinum)
  {
    ClassifySeeded(15000);
  }

  /** In the seeded bands the Altın id finds Altın. */
  lemma SeededGoldId(bands: seq<Band>)
    requires bands == Seeded
    ensures FindBand(bands, Gold.id) == Some(Gold)
  {
    assert bands[2] == Gold;
    FindBandUnique(bands, 2);
  }
}
