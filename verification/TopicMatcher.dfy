/**
  The topic matcher of app/eth_to_mqtt.c: a pointer loop over two character strings,
  its level-by-level meaning, and the rules of section 4.7.1 of MQTT 3.1.1.
  */
module TopicMatcher {

  predicate IsWildcard(c: char) {
    c == '+' || c == '#'
  }

  /** Index of the first separator at or after `i`, or the end of the string. */
  function NextSeparator(s: string, i: nat): (k: nat)
    requires i <= |s|
    ensures i <= k <= |s|
    ensures forall j | i <= j < k :: s[j] != '/'
    ensures k < |s| ==> s[k] == '/'
    decreases |s| - i
  {
    if i == |s| || s[i] == '/' then i else NextSeparator(s, i + 1)
  }

  // ----- The pointer loop

  /** What the loop answers from a state where `f` and `n` are still to be read. */
  function PointerMatch(f: string, n: string): bool
    decreases |f|
  {
    if f == "" || n == "" then f == "" && n == ""
    else if n[0] == '/' && f[0] != '/' then false
    else if !IsWildcard(f[0]) && f[0] != n[0] then false
    else if f[0] == '+' then PointerMatch(f[1..], n[NextSeparator(n, 1)..])
    else if f[0] == '#' then PointerMatch(f[1..], "")
    else PointerMatch(f[1..], n[1..])
  }

  /** Reading `f` from `i` and `n` from `k` decides the match. */
  ghost predicate ComesTo(f: string, n: string, i: nat, k: nat) {
    i <= |f| && k <= |n| && PointerMatch(f, n) == PointerMatch(f[i..], n[k..])
  }

  lemma {:induction false} PointerStarts(f: string, n: string)
    ensures ComesTo(f, n, 0, 0)
  {
    assert f[0..] == f && n[0..] == n;
  }

  /** Where the loop ends by itself. */
  lemma {:induction false} PointerEnds(f: string, n: string, i: nat, k: nat)
    requires ComesTo(f, n, i, k) && (i == |f| || k == |n|)
    ensures PointerMatch(f, n) <==> i == |f| && k == |n|
  {}

  /** Where it breaks off. */
  lemma {:induction false} PointerBreaks(f: string, n: string, i: nat, k: nat)
    requires ComesTo(f, n, i, k) && i < |f| && k < |n|
    requires (n[k] == '/' && f[i] != '/') || (f[i] != '+' && f[i] != '#' && f[i] != n[k])
    ensures !PointerMatch(f, n)
  {}

  /** A turn that goes on: `next` is where the name's pointer comes to stand. */
  lemma {:induction false} PointerGoesOn(f: string, n: string, i: nat, k: nat, next: nat)
    requires ComesTo(f, n, i, k) && i < |f| && k < |n|
    requires (n[k] == '/' ==> f[i] == '/') && (f[i] == '+' || f[i] == '#' || f[i] == n[k])
    requires next == if f[i] == '+' then NextSeparator(n, k + 1) else if f[i] == '#' then |n| else k + 1
    ensures ComesTo(f, n, i + 1, next)
  {
    SeparatorInRest(n, k, k + 1);
    assert f[i..][1..] == f[i + 1..] && n[|n|..] == "";
    assert forall j | 0 <= j <= |n| - k :: n[k..][j..] == n[k + j..];
  }

  lemma {:induction false} SeparatorInRest(s: string, i: nat, j: nat)
    requires i <= j <= |s|
    ensures NextSeparator(s, j) == i + NextSeparator(s[i..], j - i)
    decreases |s| - j
  {
    if j < |s| && s[j] != '/' {
      SeparatorInRest(s, i, j + 1);
    }
  }

  /** `isTopicMatched`: `topicFilter` is the C string without its terminator. */
  method IsTopicMatched(topicFilter: string, topicName: string) returns (matched: bool)
    ensures matched == PointerMatch(topicFilter, topicName)
    ensures WellFormedFilter(Levels(topicFilter)) && WildcardFree(topicName)
            ==> matched == LevelMatch(Levels(topicFilter), Levels(topicName))
  {
    hide *;
    if WellFormedFilter(Levels(topicFilter)) && WildcardFree(topicName) {
      PointerMatchIsLevelMatch(topicFilter, topicName);
    }
    var curf, curn, end := 0, 0, |topicName|;
    PointerStarts(topicFilter, topicName);
    while curf < |topicFilter| && curn < end
      invariant 0 <= curf <= |topicFilter| && 0 <= curn <= end && ComesTo(topicFilter, topicName, curf, curn)
    {
      if topicName[curn] == '/' && topicFilter[curf] != '/' {
        PointerBreaks(topicFilter, topicName, curf, curn);
        break;
      }
      if topicFilter[curf] != '+' && topicFilter[curf] != '#' && topicFilter[curf] != topicName[curn] {
        PointerBreaks(topicFilter, topicName, curf, curn);
        break;
      }
      ghost var start := curn;
      if topicFilter[curf] == '+' {
        var nextpos := curn + 1;
        while nextpos < end && topicName[nextpos] != '/'
          invariant start <= curn < end && nextpos == curn + 1
          invariant NextSeparator(topicName, start + 1) == NextSeparator(topicName, nextpos)
        {
          SeparatorSkips(topicName, nextpos);
          curn := curn + 1;
          nextpos := curn + 1;
        }
        SeparatorFound(topicName, nextpos);
      } else if topicFilter[curf] == '#' {
        curn := end - 1;
      }
      PointerGoesOn(topicFilter, topicName, curf, start, curn + 1);
      curf := curf + 1;
      curn := curn + 1;
    }
    if curf == |topicFilter| || curn == end {
      PointerEnds(topicFilter, topicName, curf, curn);
    }
    matched := curn == end && curf == |topicFilter|;
  }

  lemma {:induction false} SeparatorSkips(s: string, i: nat)
    requires i < |s| && s[i] != '/'
    ensures NextSeparator(s, i) == NextSeparator(s, i + 1)
  {}

  lemma {:induction false} SeparatorFound(s: string, i: nat)
    requires i == |s| || (i < |s| && s[i] == '/')
    ensures NextSeparator(s, i) == i
  {}

  // ----- Levels

  function Levels(s: string): (ls: seq<string>)
    ensures |ls| > 0
    decreases |s|
  {
    var k := NextSeparator(s, 0);
    if k == |s| then [s] else [s[..k]] + Levels(s[k + 1..])
  }

  /** The levels are what stands between the separators. */
  function Joined(ls: seq<string>): string {
    if ls == [] then "" else if |ls| == 1 then ls[0] else ls[0] + "/" + Joined(ls[1..])
  }

  lemma {:induction false} LevelsAreTheParts(s: string)
    ensures Joined(Levels(s)) == s && forall l <- Levels(s) :: '/' !in l
    decreases |s|
  {
    var k := NextSeparator(s, 0);
    if k < |s| {
      LevelsAreTheParts(s[k + 1..]);
      assert Levels(s)[1..] == Levels(s[k + 1..]);
      assert s == s[..k] + "/" + s[k + 1..];
    }
  }

  predicate WildcardFree(s: string) {
    forall i | 0 <= i < |s| :: !IsWildcard(s[i])
  }

  /** "+ and # can only be next to separator, # can only be at end". */
  predicate WellFormedFilter(f: seq<string>) {
    forall i | 0 <= i < |f| :: WildcardFree(f[i]) || f[i] == "+" || (f[i] == "#" && i == |f| - 1)
  }

  /** Level by level: `+` is one non-empty level, `#` a rest whose first level is non-empty. */
  predicate LevelMatch(f: seq<string>, n: seq<string>) {
    if f == [] || n == [] then f == [] && n == []
    else if f[0] == "#" then n[0] != ""
    else (if f[0] == "+" then n[0] != "" else f[0] == n[0]) && LevelMatch(f[1..], n[1..])
  }

  /** Reading a literal level compares it with the name's level and leaves both at the separator. */
  lemma {:induction false} PointerReadsLiteral(l: string, f: string, n: string)
    requires WildcardFree(l) && NextSeparator(l, 0) == |l|
    requires f == "" || f[0] == '/'
    ensures var k := NextSeparator(n, 0);
            PointerMatch(l + f, n) == (l == n[..k] && PointerMatch(f, n[k..]))
  {
    var k := NextSeparator(n, 0);
    if l == "" {
      assert l + f == f;
      if k > 0 && f != "" {
        assert !PointerMatch(f, n);
      }
      assert k == 0 ==> n[k..] == n;
    } else if n == "" {
    } else if n[0] == '/' {
      assert l[0] != '/';
    } else {
      assert (l + f)[1..] == l[1..] + f;
      SeparatorAfterFirst(l);
      SeparatorAfterFirst(n);
      PointerReadsLiteral(l[1..], f, n[1..]);
      assert n[1..][k - 1..] == n[k..];
      assert n[..k] == [n[0]] + n[1..][..k - 1];
      assert l == [l[0]] + l[1..];
    }
  }

  lemma {:induction false} SeparatorAfterFirst(s: string)
    requires s != "" && s[0] != '/'
    ensures NextSeparator(s, 0) == NextSeparator(s, 1) == 1 + NextSeparator(s[1..], 0)
  {
    var a, b := NextSeparator(s, 1), NextSeparator(s[1..], 0);
    if a < |s| {
      assert s[1..][a - 1] == s[a];
    }
    if b < |s| - 1 {
      assert s[b + 1] == s[1..][b];
    }
  }

  /** The pointer loop is the level-by-level matcher. */
  lemma {:induction false} PointerMatchIsLevelMatch(f: string, n: string)
    requires WellFormedFilter(Levels(f)) && WildcardFree(n)
    ensures PointerMatch(f, n) == LevelMatch(Levels(f), Levels(n))
    decreases |f|
  {
    var i, k := NextSeparator(f, 0), NextSeparator(n, 0);
    if i < |f| && k < |n| {
      var f', n' := f[i + 1..], n[k + 1..];
      assert Levels(f)[1..] == Levels(f') && Levels(n)[1..] == Levels(n');
      assert forall j | 0 <= j < |Levels(f')| :: Levels(f')[j] == Levels(f)[j + 1];
      PointerMatchIsLevelMatch(f', n');
      assert f[i..][1..] == f' && n[k..][1..] == n';
    }
    FirstLevelDecides(f, n);
  }

  lemma {:induction false} FirstLevelDecides(f: string, n: string)
    requires WellFormedFilter(Levels(f)) && WildcardFree(n)
    requires PointerMatch(f[NextSeparator(f, 0)..], n[NextSeparator(n, 0)..])
             == LevelMatch(Levels(f)[1..], Levels(n)[1..])
    ensures PointerMatch(f, n) == LevelMatch(Levels(f), Levels(n))
  {
    var i, k := NextSeparator(f, 0), NextSeparator(n, 0);
    var fl := Levels(f)[0];
    assert fl == f[..i] && Levels(n)[0] == n[..k];
    assert f == fl + f[i..];
    if fl == "#" {
      assert f == "#";
    } else if fl == "+" {
      PlusReadsLevel(f, n);
    } else {
      PointerReadsLiteral(fl, f[i..], n);
    }
  }

  /** `+` needs a non-empty level and leaves both sides at the separator. */
  lemma {:induction false} PlusReadsLevel(f: string, n: string)
    requires f != "" && f[0] == '+' && NextSeparator(f, 0) == 1
    ensures var k := NextSeparator(n, 0);
            PointerMatch(f, n) == (k > 0 && PointerMatch(f[1..], n[k..]))
  {
    if n != "" && n[0] != '/' {
      SeparatorAfterFirst(n);
    }
  }

  // ----- The standard (section 4.7.1 of MQTT 3.1.1)

  /** `#` also stands for the parent level and for empty levels, `+` also for one empty level. */
  predicate StandardMatch(f: seq<string>, n: seq<string>) {
    if f == [] then n == []
    else if f[0] == "#" then true
    else n != [] && (f[0] == "+" || f[0] == n[0]) && StandardMatch(f[1..], n[1..])
  }

  /** Every wildcard of the filter stands over a non-empty level of the name. */
  predicate WildcardsSeeText(f: seq<string>, n: seq<string>) {
    forall i | 0 <= i < |f| && (f[i] == "+" || f[i] == "#") :: i < |n| && n[i] != ""
  }

  lemma {:induction false} WildcardsSeeTextSplit(f: seq<string>, n: seq<string>)
    requires f != [] && n != []
    ensures WildcardsSeeText(f, n)
            <==> (f[0] == "+" || f[0] == "#" ==> n[0] != "") && WildcardsSeeText(f[1..], n[1..])
  {
    var f', n' := f[1..], n[1..];
    assert forall i | 0 <= i < |f'| :: f'[i] == f[i + 1];
    assert forall i | 0 <= i < |n'| :: n'[i] == n[i + 1];
    assert forall i | 0 < i < |f| :: f[i] == f'[i - 1];
    assert forall i | 0 < i < |n| :: n[i] == n'[i - 1];
  }

  lemma {:induction false} HashIsLast(f: seq<string>)
    requires WellFormedFilter(f) && f != [] && f[0] == "#"
    ensures |f| == 1
  {
    assert IsWildcard(f[0][0]);
    assert !WildcardFree(f[0]);
  }

  /** Exactly when the firmware's matcher and the standard agree on a match. */
  lemma {:induction false} LevelMatchVersusStandard(f: seq<string>, n: seq<string>)
    requires WellFormedFilter(f)
    ensures LevelMatch(f, n) <==> StandardMatch(f, n) && WildcardsSeeText(f, n)
  {
    if f == [] {
    } else if n == [] {
      if f[0] == "#" {
        assert !WildcardsSeeText(f, n);
      }
    } else {
      WildcardsSeeTextSplit(f, n);
      if f[0] == "#" {
        HashIsLast(f);
      } else {
        assert forall j | 0 <= j < |f[1..]| :: f[1..][j] == f[j + 1];
        LevelMatchVersusStandard(f[1..], n[1..]);
      }
    }
  }

  /** On names without empty levels the only disagreement is `#` standing for its parent level. */
  lemma {:induction false} AgreementWithoutEmptyLevels(f: seq<string>, n: seq<string>)
    requires WellFormedFilter(f) && f != [] && n != []
    requires forall i | 0 <= i < |n| :: n[i] != ""
    ensures LevelMatch(f, n) <==> StandardMatch(f, n) && !(f[|f| - 1] == "#" && |n| == |f| - 1)
  {
    LevelMatchVersusStandard(f, n);
    if StandardMatch(f, n) {
      StandardLengths(f, n);
      var last := |f| - 1;
      if WildcardsSeeText(f, n) {
        assert f[last] == "#" ==> last < |n|;
      } else {
        var i :| 0 <= i < |f| && (f[i] == "+" || f[i] == "#") && !(i < |n| && n[i] != "");
        assert i >= |n|;
      }
    }
  }

  lemma {:induction false} StandardLengths(f: seq<string>, n: seq<string>)
    requires WellFormedFilter(f) && StandardMatch(f, n)
    ensures f != [] && f[|f| - 1] == "#" ==> |n| >= |f| - 1
    ensures (f == [] || f[|f| - 1] != "#") ==> |n| == |f|
  {
    if f != [] && f[0] == "#" {
      HashIsLast(f);
    } else if f != [] {
      var f' := f[1..];
      assert forall j | 0 <= j < |f'| :: f'[j] == f[j + 1];
      StandardLengths(f', n[1..]);
      assert f' != [] ==> f'[|f'| - 1] == f[|f| - 1];
    }
  }

  /** A well-formed filter hits a wildcard-free name only if the standard says so. */
  lemma {:induction false} HitIsStandardMatch(filter: string, name: string)
    requires WellFormedFilter(Levels(filter)) && WildcardFree(name)
    ensures PointerMatch(filter, name)
            <==> StandardMatch(Levels(filter), Levels(name)) && WildcardsSeeText(Levels(filter), Levels(name))
  {
    PointerMatchIsLevelMatch(filter, name);
    LevelMatchVersusStandard(Levels(filter), Levels(name));
  }

  /** Three names the standard gives to a filter and the firmware does not: a parent and two empty levels. */
  lemma {:induction false} StricterThanTheStandard()
    ensures StandardMatch(Levels("a/#"), Levels("a")) && !PointerMatch("a/#", "a")
    ensures StandardMatch(Levels("a/#"), Levels("a/")) && !PointerMatch("a/#", "a/")
    ensures StandardMatch(Levels("+/b"), Levels("/b")) && !PointerMatch("+/b", "/b")
  {
    HashWithoutParent();
    HashWithoutEmptyLevel();
    PlusWithoutEmptyLevel();
  }

  lemma {:induction false} HashWithoutParent()
    ensures StandardMatch(Levels("a/#"), Levels("a")) && !PointerMatch("a/#", "a")
  {
    LevelsOfOne("a");
    LevelsOfTwo("a", "#");
    assert "a" + "/" + "#" == "a/#";
    StandardOnPairs("a", "#", "a", "");
    assert "a/#"[0..] == "a/#" && "a"[0..] == "a";
    PointerGoesOn("a/#", "a", 0, 0, 1);
    PointerEnds("a/#", "a", 1, 1);
  }

  lemma {:induction false} HashWithoutEmptyLevel()
    ensures StandardMatch(Levels("a/#"), Levels("a/")) && !PointerMatch("a/#", "a/")
  {
    LevelsOfTwo("a", "#");
    LevelsOfTwo("a", "");
    assert "a" + "/" + "#" == "a/#" && "a" + "/" + "" == "a/";
    StandardOnPairs("a", "#", "a", "");
    assert "a/#"[0..] == "a/#" && "a/"[0..] == "a/";
    PointerGoesOn("a/#", "a/", 0, 0, 1);
    PointerGoesOn("a/#", "a/", 1, 1, 2);
    PointerEnds("a/#", "a/", 2, 2);
  }

  lemma {:induction false} PlusWithoutEmptyLevel()
    ensures StandardMatch(Levels("+/b"), Levels("/b")) && !PointerMatch("+/b", "/b")
  {
    LevelsOfTwo("+", "b");
    LevelsOfTwo("", "b");
    assert "+" + "/" + "b" == "+/b" && "" + "/" + "b" == "/b";
    StandardOnPairs("+", "b", "", "b");
    assert "+/b"[0..] == "+/b" && "/b"[0..] == "/b";
    PointerBreaks("+/b", "/b", 0, 0);
  }

  lemma {:induction false} StandardOnPairs(f0: string, f1: string, n0: string, n1: string)
    requires f0 != "#"
    ensures StandardMatch([f0, f1], [n0, n1])
            == ((f0 == "+" || f0 == n0) && (f1 == "#" || f1 == "+" || f1 == n1))
    ensures StandardMatch([f0, f1], [n0]) == ((f0 == "+" || f0 == n0) && f1 == "#")
  {
    assert [f0, f1][1..] == [f1] && [n0, n1][1..] == [n1] && [n0][1..] == [];
    assert StandardMatch([f1], [n1]) == (f1 == "#" || f1 == "+" || f1 == n1);
  }

  lemma {:induction false} LevelsOfOne(s: string)
    requires |s| <= 1 && '/' !in s
    ensures Levels(s) == [s]
  {}

  lemma {:induction false} LevelsOfTwo(l: string, r: string)
    requires |l| <= 1 && '/' !in l && |r| <= 1 && '/' !in r
    ensures Levels(l + "/" + r) == [l, r]
  {
    var s := l + "/" + r;
    assert s[|l|] == '/' && s[..|l|] == l && s[|l| + 1..] == r;
    assert NextSeparator(s, 0) == |l|;
    LevelsOfOne(r);
  }

  // ----- Delivery's first test, an exact comparison, adds nothing

  lemma {:induction false} EveryNameMatchesItself(s: string)
    requires WildcardFree(s)
    ensures PointerMatch(s, s)
  {
    if s != "" {
      EveryNameMatchesItself(s[1..]);
    }
  }
}
