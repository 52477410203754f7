/** Matching a topic name against a topic filter (section 4.7 of MQTT 3.1.1): the two-pointer
    loop of the client is the level-by-level match, and where that differs from the standard. */
module TopicMatch {

  // A text cut at its separators; always at least one level.
  function Levels(s: string): (r: seq<string>)
    ensures |r| >= 1
  {
    if s == "" then [""]
    else
      var rest := Levels(s[1..]);
      if s[0] == '/' then [""] + rest else [[s[0]] + rest[0]] + rest[1..]
  }

  predicate Plain(level: string) {
    '+' !in level && '#' !in level
  }

  // Wildcards stand alone in their level, and '#' only in the last one.
  predicate WellFormed(f: seq<string>) {
    f != [] ==> (Plain(f[0]) || f[0] == "+" || (f[0] == "#" && |f| == 1)) && WellFormed(f[1..])
  }

  // The match the client computes: '+' takes one level, '#' all that are left, and neither
  // accepts an empty level where it stands.
  predicate Matches(f: seq<string>, n: seq<string>) {
    if f == [] then n == []
    else if n == [] then false
    else if f[0] == "#" then n[0] != ""
    else if f[0] == "+" then n[0] != "" && Matches(f[1..], n[1..])
    else f[0] == n[0] && Matches(f[1..], n[1..])
  }

  // The match of section 4.7.1: '+' takes any one level, '#' any number of levels.
  predicate StandardMatches(f: seq<string>, n: seq<string>) {
    if f == [] then n == []
    else if f[0] == "#" then true
    else if n == [] then false
    else (f[0] == "+" || f[0] == n[0]) && StandardMatches(f[1..], n[1..])
  }

  /** Every match is a match of the standard. */
  lemma {:induction false} MatchIsStandard(f: seq<string>, n: seq<string>)
    requires Matches(f, n)
    ensures StandardMatches(f, n)
  {
    if f != [] && f[0] != "#" {
      MatchIsStandard(f[1..], n[1..]);
    }
  }

  // No '+' stands against an empty level, and a final '#' stands against a level that is there
  // and not empty.
  predicate TakesNoEmptyLevel(f: seq<string>, n: seq<string>) {
    && (forall k :: 0 <= k < |f| && k < |n| && f[k] == "+" ==> n[k] != "")
    && (f != [] && f[|f| - 1] == "#" ==> |n| >= |f| && n[|f| - 1] != "")
  }

  /** The converse holds exactly when no wildcard would have to take an empty or missing level. */
  lemma {:induction false} StandardIsMatch(f: seq<string>, n: seq<string>)
    requires WellFormed(f)
    ensures Matches(f, n) <==> StandardMatches(f, n) && TakesNoEmptyLevel(f, n)
  {
    if f != [] && n != [] && f[0] != "#" {
      StandardIsMatch(f[1..], n[1..]);
      TailTakesNoEmptyLevel(f, n);
    }
  }

  lemma TailTakesNoEmptyLevel(f: seq<string>, n: seq<string>)
    requires f != [] && n != [] && f[0] != "#"
    ensures TakesNoEmptyLevel(f, n) <==> (f[0] == "+" ==> n[0] != "") && TakesNoEmptyLevel(f[1..], n[1..])
  {
    if (f[0] == "+" ==> n[0] != "") && TakesNoEmptyLevel(f[1..], n[1..]) {
      forall k | 0 <= k < |f| && k < |n| && f[k] == "+" ensures n[k] != "" {
        if k > 0 {
          assert f[1..][k - 1] == f[k] && n[1..][k - 1] == n[k];
        }
      }
    }
  }

  lemma OneCharacter(s: string)
    requires |s| == 1 && s[0] != '/'
    ensures Levels(s) == [s]
  {
    assert s[1..] == "" && Levels("") == [""];
    assert [s[0]] + "" == s;
  }

  /** Section 4.7.1.3 has "+/+" match "/f"; the client does not. */
  lemma EmptyLevelRefused()
    ensures Levels("+/+") == ["+", "+"] && Levels("/f") == ["", "f"]
    ensures WellFormed(["+", "+"]) && StandardMatches(["+", "+"], ["", "f"]) && !Matches(["+", "+"], ["", "f"])
  {
    assert "+/+"[1..] == "/+" && "/+"[1..] == "+" && "+"[1..] == "" && "/f"[1..] == "f" && "f"[1..] == "";
    OneCharacter("+");
    OneCharacter("f");
  }

  /** For names without an empty level the only difference is that a filter ending in '#' does not
      match its parent level. */
  lemma ParentOfHash(f: seq<string>, n: seq<string>)
    requires WellFormed(f) && "" !in n
    ensures StandardMatches(f, n) && !Matches(f, n) <==>
      |f| == |n| + 1 && f[|n|] == "#" && StandardMatches(f[..|n|], n)
  {
    StandardIsMatch(f, n);
    HashTakesTheRest(f, n);
  }

  // Against at most its parent's levels a final '#' adds nothing.
  lemma {:induction false} HashTakesTheRest(f: seq<string>, n: seq<string>)
    requires WellFormed(f)
    ensures |f| == |n| + 1 && f[|n|] == "#" ==> (StandardMatches(f, n) <==> StandardMatches(f[..|n|], n))
    ensures StandardMatches(f, n) ==> |n| == |f| || (f != [] && f[|f| - 1] == "#" && |n| >= |f| - 1)
  {
    if f != [] && n != [] && f[0] != "#" {
      HashTakesTheRest(f[1..], n[1..]);
      if |f| == |n| + 1 {
        assert f[1..][..|n| - 1] == f[..|n|][1..];
      }
    }
  }

  lemma PlainTail(level: string)
    requires level != "" && Plain(level)
    ensures Plain(level[1..])
  {
    assert forall c :: c in level[1..] ==> c in level;
  }

  // A match of two lists of levels whose first filter level has no wildcard.
  lemma MatchPlain(f: seq<string>, n: seq<string>)
    requires f != [] && n != [] && Plain(f[0])
    ensures Matches(f, n) <==> f[0] == n[0] && Matches(f[1..], n[1..])
  {
    assert '+' in "+" && '#' in "#";
  }

  // One equal plain character off the front of both texts keeps the answer.
  lemma StepBoth(f: string, n: string)
    requires f != "" && n != "" && f[0] == n[0] && f[0] != '+' && f[0] != '#'
    requires WellFormed(Levels(f))
    ensures WellFormed(Levels(f[1..]))
    ensures Matches(Levels(f), Levels(n)) == Matches(Levels(f[1..]), Levels(n[1..]))
  {
    var lf, ln, rf, rn := Levels(f), Levels(n), Levels(f[1..]), Levels(n[1..]);
    if f[0] == '/' {
      assert lf[1..] == rf && ln[1..] == rn;
      MatchPlain(lf, ln);
    } else {
      assert lf[0] == [f[0]] + rf[0] && lf[1..] == rf[1..];
      assert ln[0] == [n[0]] + rn[0] && ln[1..] == rn[1..];
      assert lf[0][0] == f[0];
      assert Plain(lf[0]);
      PlainTail(lf[0]);
      assert lf[0][1..] == rf[0] && ln[0][1..] == rn[0];
      MatchPlain(lf, ln);
      MatchPlain(rf, rn);
    }
  }

  // Where the level around position i ends.
  function LevelEnd(s: string, i: nat): (e: nat)
    requires i <= |s|
    ensures i <= e <= |s| && (e == |s| || s[e] == '/')
    ensures i < |s| && s[i] != '/' ==> i < e
    decreases |s| - i
  {
    if i == |s| || s[i] == '/' then i else LevelEnd(s, i + 1)
  }

  lemma LevelsAt(s: string, i: nat)
    requires i < |s|
    ensures var rest := Levels(s[i + 1..]);
      Levels(s[i..]) == if s[i] == '/' then [""] + rest else [[s[i]] + rest[0]] + rest[1..]
  {
    assert s[i..][1..] == s[i + 1..];
  }

  lemma PrefixCons(s: string, i: nat, e: nat)
    requires i < e <= |s|
    ensures s[i..e] == [s[i]] + s[i + 1..e]
  {
  }

  lemma {:induction false} LevelsSplit(s: string, i: nat)
    requires i <= |s|
    ensures var e := LevelEnd(s, i);
      Levels(s[i..])[0] == s[i..e] && Levels(s[i..])[1..] == Levels(s[e..])[1..] && Levels(s[e..])[0] == ""
    decreases |s| - i
  {
    if i < |s| {
      LevelsAt(s, i);
      if s[i] != '/' {
        LevelsSplit(s, i + 1);
        PrefixCons(s, i, LevelEnd(s, i));
        assert Levels(s[i..])[1..] == Levels(s[i + 1..])[1..];
      }
    }
  }

  // '+' against a name that does not start with a separator takes its first level.
  lemma StepPlus(f: string, name: string, i: nat)
    requires f != "" && f[0] == '+' && i < |name| && name[i] != '/'
    requires WellFormed(Levels(f))
    ensures WellFormed(Levels(f[1..]))
    ensures Matches(Levels(f), Levels(name[i..])) == Matches(Levels(f[1..]), Levels(name[LevelEnd(name, i)..]))
  {
    var lf, rf, ln, r := Levels(f), Levels(f[1..]), Levels(name[i..]), Levels(name[LevelEnd(name, i)..]);
    LevelsSplit(name, i);
    assert lf[0] == "+" + rf[0] && lf[1..] == rf[1..];
    assert lf[0][0] == '+';
    assert lf[0] == "+" by {
      assert !Plain(lf[0]) && lf[0] != "#";
    }
    assert rf[0] == "" by { assert |lf[0]| == 1 + |rf[0]|; }
    MatchPlain(rf, r);
  }

  // '#' takes a rest that does not start with a separator.
  lemma StepHash(f: string, n: string)
    requires f != "" && f[0] == '#' && n != "" && n[0] != '/'
    requires WellFormed(Levels(f))
    ensures f == "#" && Matches(Levels(f), Levels(n))
  {
    var lf, rf := Levels(f), Levels(f[1..]);
    assert lf[0] == "#" + rf[0] && lf[0][0] == '#';
    assert lf[0] == "#" by {
      assert !Plain(lf[0]) && lf[0] != "+";
    }
    assert rf == [""] by { assert |lf[0]| == 1 + |rf[0]|; }
    if f[1..] != "" {
      assert false;
    }
  }

  // Where the loop gives up, the levels do not match.
  lemma NoStep(f: string, n: string)
    requires f == "" || n == "" || (n[0] == '/' && f[0] != '/') || (f[0] != '+' && f[0] != '#' && f[0] != n[0])
    requires WellFormed(Levels(f))
    ensures Matches(Levels(f), Levels(n)) <==> f == "" && n == ""
  {
    var lf, ln := Levels(f), Levels(n);
    if f != "" && n != "" && n[0] == '/' {
      assert ln[0] == "" && lf[0] != "";
    } else if f != "" && n != "" {
      assert ln[0] != "" && ln[0][0] == n[0];
      if f[0] != '/' {
        assert lf[0][0] == f[0];
      }
    } else if f == "" && n != "" {
      if n[0] == '/' {
        assert ln[0] == "" && |ln| >= 2;
        assert lf[1..] == [] && ln[1..] != [];
      } else {
        assert ln[0] != "";
      }
    } else if n == "" && f != "" {
      if f[0] == '/' {
        assert lf[0] == "" && |lf| >= 2;
        assert ln[1..] == [] && lf[1..] != [];
      } else {
        assert lf[0] != "";
      }
    }
  }

  // What is left to match from position i of the filter and j of the name.
  predicate Left(filter: string, i: nat, name: string, j: nat)
    requires i <= |filter| && j <= |name|
  {
    Matches(Levels(filter[i..]), Levels(name[j..]))
  }

  predicate WellFormedFrom(filter: string, i: nat)
    requires i <= |filter|
  {
    WellFormed(Levels(filter[i..]))
  }

  // One round of the loop, on positions.
  lemma Round(filter: string, i: nat, name: string, j: nat)
    requires i < |filter| && j < |name| && WellFormedFrom(filter, i)
    requires name[j] != '/' || filter[i] == '/'
    requires filter[i] in "+#" || filter[i] == name[j]
    ensures WellFormedFrom(filter, i + 1)
    ensures filter[i] == '+' ==> Left(filter, i, name, j) == Left(filter, i + 1, name, LevelEnd(name, j))
    ensures filter[i] == '#' ==> Left(filter, i, name, j) && Left(filter, i + 1, name, |name|)
    ensures filter[i] !in "+#" ==> Left(filter, i, name, j) == Left(filter, i + 1, name, j + 1)
  {
    var f, n := filter[i..], name[j..];
    assert f[0] == filter[i] && n[0] == name[j];
    assert f[1..] == filter[i + 1..] && n[1..] == name[j + 1..];
    if filter[i] == '+' {
      StepPlus(f, name, j);
    } else if filter[i] == '#' {
      StepHash(f, n);
      assert filter[i + 1..] == "" && name[|name|..] == "";
    } else {
      StepBoth(f, n);
    }
  }

  lemma GiveUp(filter: string, i: nat, name: string, j: nat)
    requires i <= |filter| && j <= |name| && WellFormedFrom(filter, i)
    requires i == |filter| || j == |name|
      || (name[j] == '/' && filter[i] != '/') || (filter[i] !in "+#" && filter[i] != name[j])
    ensures Left(filter, i, name, j) <==> i == |filter| && j == |name|
  {
    var f, n := filter[i..], name[j..];
    assert f != "" ==> f[0] == filter[i];
    assert n != "" ==> n[0] == name[j];
    NoStep(f, n);
  }

  // The inner loop: on to the last character of the level that pos is in.
  method SkipLevel(name: string, pos: nat) returns (last: nat)
    requires pos < |name| && name[pos] != '/'
    ensures last + 1 == LevelEnd(name, pos)
  {
    last := pos;
    var nextpos := pos + 1;
    while nextpos < |name| && name[nextpos] != '/'
      invariant nextpos == last + 1 <= |name|
      invariant LevelEnd(name, pos) == LevelEnd(name, nextpos)
    {
      last := last + 1;
      nextpos := last + 1;
    }
  }

  /** isTopicMatched: on every well-formed filter the two-pointer loop ends and answers exactly
      whether the levels match. */
  method IsTopicMatched(filter: string, name: string) returns (matched: bool)
    requires WellFormed(Levels(filter))
    ensures matched <==> Matches(Levels(filter), Levels(name))
  {
    var curf: nat, curn: nat, end := 0, 0, |name|;
    assert filter[0..] == filter && name[0..] == name;
    ghost var answer := Left(filter, 0, name, 0);
    while curf < |filter| && curn < end
      invariant curf <= |filter| && curn <= end
      invariant WellFormedFrom(filter, curf)
      invariant answer == Left(filter, curf, name, curn)
      decreases |filter| - curf
    {
      if name[curn] == '/' && filter[curf] != '/' {
        break;
      }
      if filter[curf] != '+' && filter[curf] != '#' && filter[curf] != name[curn] {
        break;
      }
      Round(filter, curf, name, curn);
      if filter[curf] == '+' {
        curn := SkipLevel(name, curn);
      } else if filter[curf] == '#' {
        curn := end - 1;
      }
      curf := curf + 1;
      curn := curn + 1;
    }
    GiveUp(filter, curf, name, curn);
    matched := curn == end && curf == |filter|;
  }
}
