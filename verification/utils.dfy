/** `fix_wrong_category`: teams whose name mentions the Hreindýrabollan event
    were published under the OPEN category although they raced in PRO. */
module Utils {
  import opened Text
  import opened Records

  const EventName: string := "Hreindýrabollan"

  /** The team name mentions the event, ignoring case. */
  predicate NamesEvent(team: string)
  {
    Contains(Lower(team), Lower(EventName))
  }

  /** The category after the fix: for a team naming the event, every
      non-overlapping "OPEN", found left to right, becomes "PRO"; any other
      team keeps its category. */
  function FixedCategory(team: string, category: string): (r: string)
    ensures !NamesEvent(team) ==> r == category
    ensures !Contains(category, "OPEN") ==> r == category
    ensures NamesEvent(team) && Contains(category, "OPEN") ==> Contains(r, "PRO")
  {
    if !NamesEvent(team) then category
    else if Contains(category, "OPEN") then
      ReplaceIntroduces(category, "OPEN", "PRO");
      Replace(category, "OPEN", "PRO")
    else
      ReplaceWithoutOccurrence(category, "OPEN", "PRO");
      Replace(category, "OPEN", "PRO")
  }

  /** utils.py's `fix_wrong_category`: overwrites `Category` of the caller's
      dictionary and hands back the same object. */
  method FixWrongCategory(value: TeamEntry) returns (r: TeamEntry)
    modifies value
    ensures r == value
    ensures value.Record() == old(value.Record()).(category := FixedCategory(old(value.team), old(value.category)))
  {
    if NamesEvent(value.team) {
      value.category := Replace(value.category, "OPEN", "PRO");
    }
    r := value;
  }

  /** Where the pattern occurs, the replacement text occurs in the result. */
  lemma {:induction false} ReplaceIntroduces(s: string, pat: string, rep: string)
    requires |pat| > 0 && Contains(s, pat)
    ensures Contains(Replace(s, pat, rep), rep)
    decreases |s|
  {
    if StartsWith(s, pat) {
      ContainsAt(rep + Replace(s[|pat|..], pat, rep), rep, 0);
    } else {
      var tail := Replace(s[1..], pat, rep);
      ReplaceIntroduces(s[1..], pat, rep);
      assert ([s[0]] + tail)[1..] == tail;
    }
  }

  /** Lower-casing is idempotent on the characters it maps. */
  lemma LowerTwice(s: string)
    ensures Lower(Lower(s)) == Lower(s)
  {
    forall i | 0 <= i < |s| ensures LowerChar(LowerChar(s[i])) == LowerChar(s[i]) {
      var c := s[i];
      if 'A' <= c <= 'Z' || ('\U{00C0}' <= c <= '\U{00DE}' && c != '\U{00D7}') {
        assert LowerChar(c) as int == c as int + 32;
      }
    }
  }

  /** The match ignores case: a team name and its lower-cased form get the
      same category. */
  lemma FixIgnoresCase(team: string, category: string)
    ensures FixedCategory(Lower(team), category) == FixedCategory(team, category)
  {
    LowerTwice(team);
  }

  /** For a team naming the event the fix is exactly the replacement. */
  lemma FixWhenNamed(team: string, category: string)
    requires NamesEvent(team)
    ensures FixedCategory(team, category) == Replace(category, "OPEN", "PRO")
  {
  }

  /** A team named after the event moves "OPEN Women" to "PRO Women". */
  lemma FixExample(team: string)
    requires NamesEvent(team)
    ensures FixedCategory(team, "OPEN Women") == "PRO Women"
  {
    FixWhenNamed(team, "OPEN Women");
    ReplaceOpenWomen();
  }

  lemma ReplaceOpenWomen()
    ensures Replace("OPEN Women", "OPEN", "PRO") == "PRO Women"
  {
    LeadLacking(" Women", "OPEN");
    ReplaceWithoutOccurrence(" Women", "OPEN", "PRO");
    ReplaceAtMatch("OPEN", " Women", "PRO");
    assert "OPEN" + " Women" == "OPEN Women";
    assert "PRO" + " Women" == "PRO Women";
  }

  /** The event's own name matches, so the fix is reachable. */
  lemma EventNameMatches()
    ensures NamesEvent(EventName)
  {
    ContainsAt(Lower(EventName), Lower(EventName), 0);
  }

  /** The fix is not idempotent: "OOPENPEN" becomes "OPROPEN", which holds a
      new "OPEN" that a second fix rewrites to "OPRPRO". */
  lemma FixNotIdempotent(team: string)
    requires NamesEvent(team)
    ensures FixedCategory(team, "OOPENPEN") == "OPROPEN"
    ensures FixedCategory(team, FixedCategory(team, "OOPENPEN")) == "OPRPRO"
  {
    FixWhenNamed(team, "OOPENPEN");
    FixWhenNamed(team, "OPROPEN");
    ReplaceOverlapping();
  }

  lemma ReplaceOverlapping()
    ensures Replace("OOPENPEN", "OPEN", "PRO") == "OPROPEN"
    ensures Replace("OPROPEN", "OPEN", "PRO") == "OPRPRO"
  {
    ReplaceOnce();
    ReplaceTwice();
  }

  lemma ReplaceOnce()
    ensures Replace("OOPENPEN", "OPEN", "PRO") == "OPROPEN"
  {
    var tail := "PEN";
    ShorterLacks(tail, "OPEN");
    ReplaceWithoutOccurrence(tail, "OPEN", "PRO");
    ReplaceAtMatch("OPEN", tail, "PRO");
    var s := ['O'] + ("OPEN" + tail);
    assert s[..4][1] != "OPEN"[1];
    ReplaceAtMiss('O', "OPEN" + tail, "OPEN", "PRO");
    assert s == "OOPENPEN";
    assert ['O'] + ("PRO" + tail) == "OPROPEN";
  }

  lemma ReplaceTwice()
    ensures Replace("OPROPEN", "OPEN", "PRO") == "OPRPRO"
  {
    var s3 := "OPEN";
    ReplaceAtMatch("OPEN", "", "PRO");
    assert s3 + "" == s3;
    var s2 := ['R'] + s3;
    assert s2[..4][0] != "OPEN"[0];
    ReplaceAtMiss('R', s3, "OPEN", "PRO");
    var s1 := ['P'] + s2;
    assert s1[..4][0] != "OPEN"[0];
    ReplaceAtMiss('P', s2, "OPEN", "PRO");
    var s0 := ['O'] + s1;
    assert s0[..4][2] != "OPEN"[2];
    ReplaceAtMiss('O', s1, "OPEN", "PRO");
    assert s0 == "OPROPEN";
    assert ['O'] + (['P'] + (['R'] + "PRO")) == "OPRPRO";
  }
}
