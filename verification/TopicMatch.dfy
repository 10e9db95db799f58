/**
 * veides_sh_client_topic_match: a single pass over filter and topic, proved to be the
 * level-by-level matching of MQTT 3.1.1 section 4.7.
 */
module TopicMatch {
  datatype Code = SUCCESS | FAILURE | NULL_PARAM | NOMEM | HANDLER_NOT_FOUND

  // ---- The specification: topic levels.

  function Split(s: string): (ls: seq<string>)
    ensures ls != []
  {
    if s == "" then [""]
    else if s[0] == '/' then [""] + Split(s[1..])
    else var r := Split(s[1..]); [[s[0]] + r[0]] + r[1..]
  }

  /** `+` stands for one level, possibly empty, and a final `#` for any levels, also none. */
  predicate LevelsMatch(fs: seq<string>, ts: seq<string>) {
    if fs == [] then ts == []
    else if fs[0] == "#" then true
    else ts != [] && (fs[0] == "+" || fs[0] == ts[0]) && LevelsMatch(fs[1..], ts[1..])
  }

  predicate IsWild(c: char) { c == '+' || c == '#' }

  predicate NoWild(s: string) { forall i | 0 <= i < |s| :: !IsWild(s[i]) }

  /** `#` and `+` each take a whole level, and `#` only the last one. */
  predicate LevelsOk(ls: seq<string>) {
    ls == [] || (LevelOk(ls[0], |ls| == 1) && LevelsOk(ls[1..]))
  }

  predicate LevelOk(l: string, last: bool) { NoWild(l) || l == "+" || (l == "#" && last) }

  predicate WellFormed(f: string) { f != "" && LevelsOk(Split(f)) }

  predicate Starts(s: string, c: char) { s != "" && s[0] == c }

  predicate AgreeOnDollar(f: string, t: string) { Starts(f, '$') == Starts(t, '$') }

  /** Sections 4.7.1 and 4.7.2: a leading wildcard does not match a leading `$`. */
  predicate MqttMatch(f: string, t: string) {
    LevelsMatch(Split(f), Split(t)) && !(Starts(t, '$') && (Starts(f, '+') || Starts(f, '#')))
  }

  /**
   * Behind `g/#`, where `g` is well formed and ends in `+`, the scan lets anything stand
   * once `g` matches the topic, although `#` must be last.
   */
  ghost predicate Overruns(f: string, t: string) { exists n: nat :: OverrunsAt(f, t, n) }

  predicate OverrunsAt(f: string, t: string, n: nat) {
    && 0 < n < |f| - 2 && f[n - 1] == '+' && f[n] == '/' && f[n + 1] == '#'
    && WellFormed(f[..n]) && MqttMatch(f[..n], t)
  }

  /** The filters the scan lets a plain topic pass through. */
  ghost predicate Accepts(f: string, t: string) { (WellFormed(f) && MqttMatch(f, t)) || Overruns(f, t) }

  /** What the scan answers: any pair of which only one starts with `$` counts as a match. */
  ghost predicate Takes(f: string, t: string) {
    f != "" && t != "" && (!AgreeOnDollar(f, t) || (NoWild(t) && Accepts(f, t)))
  }

  // ---- Well-formedness and matching of what the scan has not read yet.

  /** The byte at `i`; a C string ends in NUL. */
  function CharAt(s: string, i: nat): (c: char)
    requires i <= |s|
  {
    if i < |s| then s[i] else '\0'
  }

  predicate CText(s: string) { forall i | 0 <= i < |s| :: s[i] != '\0' }

  /** `f` continues a well-formed filter; `start` says whether a level begins here. */
  predicate Tidy(f: string, start: bool) {
    f == "" || (
      && (f[0] == '#' ==> start && |f| == 1)
      && (f[0] == '+' ==> start && (|f| == 1 || f[1] == '/'))
      && Tidy(f[1..], f[0] == '/'))
  }

  lemma {:induction false} TidyLevels(f: string, start: bool)
    ensures Tidy(f, start) <==> LevelsOk(Split(f)) && (start || NoWild(Split(f)[0]))
  {
    if f != "" {
      var g, c := f[1..], f[0];
      TidyLevels(g, c == '/');
      var r := Split(g);
      if c == '/' {
        assert Split(f)[1..] == r;
      } else {
        assert Split(f)[1..] == r[1..];
        var l := [c] + r[0];
        assert Split(f)[0] == l && l[0] == c && l[1..] == r[0];
        assert r[0] == "" <==> g == "" || g[0] == '/';
        assert NoWild(l) <==> !IsWild(c) && NoWild(r[0]) by {
          if !IsWild(c) && NoWild(r[0]) {
            forall i | 0 <= i < |l| ensures !IsWild(l[i]) { if i > 0 { assert l[i] == r[0][i - 1]; } }
          }
          if NoWild(l) {
            forall i | 0 <= i < |r[0]| ensures !IsWild(r[0][i]) { assert l[i + 1] == r[0][i]; }
          }
        }
        if r[0] == "" && |r| == 1 { assert g == ""; }
      }
    }
  }

  predicate Rest(f: string, t: string) { LevelsMatch(Split(f), Split(t)) }

  /** Equal bytes other than wildcards can be dropped on both sides. */
  lemma {:induction false} DropEqual(f: string, t: string, start: bool)
    requires f != "" && t != "" && f[0] == t[0] && !IsWild(f[0]) && Tidy(f, start)
    ensures Rest(f, t) == Rest(f[1..], t[1..])
  {
    var g, u := f[1..], t[1..];
    if f[0] == '/' {
      assert Split(f)[1..] == Split(g) && Split(t)[1..] == Split(u);
    } else {
      TidyLevels(g, false);
      var a, b := Split(g), Split(u);
      var l, m := Split(f)[0], Split(t)[0];
      assert Split(f)[1..] == a[1..] && Split(t)[1..] == b[1..];
      assert l[0] == f[0] && l[1..] == a[0] && m[0] == f[0] && m[1..] == b[0];
      assert (l == m) == (a[0] == b[0]);
      assert !NoWild("#") && !NoWild("+") by { assert IsWild("#"[0]) && IsWild("+"[0]); }
    }
  }

  /** Inside a level of the topic only what follows the level matters to a `+`. */
  lemma {:induction false} DropInLevel(t: string)
    requires t != "" && t[0] != '/'
    ensures Split(t[1..])[1..] == Split(t)[1..]
  {
  }

  /** A `+` and the level it stands for can be dropped. */
  lemma {:induction false} DropPlus(f: string, ts: seq<string>, u: string)
    requires f != "" && f[0] == '+' && Tidy(f, true) && ts != []
    requires Split(u)[1..] == ts[1..] && (u == "" || u[0] == '/')
    ensures LevelsMatch(Split(f), ts) == Rest(f[1..], u)
  {
    var g := f[1..];
    assert g == "" || g[0] == '/';
    assert Split(g)[0] == "" && Split(u)[0] == "";
    assert Split(f)[0] == "+" && Split(f)[1..] == Split(g)[1..];
  }

  lemma {:induction false} HashMatches(f: string, t: string)
    requires f != "" && f[0] == '#' && Tidy(f, true)
    ensures Rest(f, t)
  {
    assert f[1..] == "" && Split("") == [""];
    assert Split(f)[0] == "#";
  }

  /** A filter with a literal byte does not match the end of the topic, unless only `/#` is left of it. */
  lemma {:induction false} LiteralAtEnd(f: string, start: bool)
    requires f != "" && !IsWild(f[0]) && Tidy(f, start)
    ensures Rest(f, "") <==> |f| == 2 && f[0] == '/' && f[1] == '#'
    ensures |f| > 1 && f[0] == '/' && f[1] == '#' ==> |f| == 2
  {
    var g := f[1..];
    if f[0] == '/' {
      assert Split(f)[1..] == Split(g) && Split("")[1..] == [] && Split("")[0] == "";
      assert Rest(f, "") == LevelsMatch(Split(g), []);
      TidyLevels(g, true);
      if g != "" && g[0] == '#' {
        assert Split(g[1..]) == [""];
        assert Split(g)[0] == "#";
      } else if g != "" && g[0] != '/' {
        assert Split(g)[0][0] == g[0];
      }
    } else {
      assert Split(f)[0][0] == f[0];
    }
  }

  lemma LiteralDiffers(f: string, t: string)
    requires f != "" && t != "" && !IsWild(f[0]) && f[0] != t[0]
    ensures !Rest(f, t)
  {
    if f[0] != '/' { assert Split(f)[0][0] == f[0]; }
    if t[0] != '/' { assert Split(t)[0][0] == t[0]; }
  }

  lemma FilterEnded(t: string)
    requires t != ""
    ensures !Rest("", t)
  {
    assert Split("")[1..] == [];
    if t[0] == '/' {
      assert Split(t)[1..] == Split(t[1..]);
      assert !LevelsMatch([], Split(t[1..]));
    } else {
      assert Split(t)[0][0] == t[0];
    }
  }

  lemma PlusAtEnd()
    ensures Rest("+", "") && Rest("", "")
  {
    assert Split("") == [""];
    assert "+"[1..] == "" && Split("+")[0] == "+" && Split("+")[1..] == [];
  }

  /** A match never joins a filter and a topic of which only one starts with `$`. */
  lemma MatchAgrees(f: string, t: string)
    requires f != "" && t != "" && MqttMatch(f, t)
    ensures AgreeOnDollar(f, t)
  {
    if f[0] != '/' { assert Split(f)[0][0] == f[0]; }
    if t[0] != '/' { assert Split(t)[0][0] == t[0]; }
  }

  lemma MatchIsRest(f: string, t: string)
    requires AgreeOnDollar(f, t)
    ensures MqttMatch(f, t) == Rest(f, t)
  {
  }

  lemma {:induction false} PlainTidy(f: string, start: bool)
    requires NoWild(f)
    ensures Tidy(f, start)
  {
    if f != "" {
      PlainTidy(f[1..], f[0] == '/');
    }
  }

  /** Without wildcards, to match is to be equal. */
  lemma PlainMatch(f: string, t: string)
    requires NoWild(f)
    ensures Rest(f, t) <==> f == t
  {
    if f == "" {
      if t != "" { FilterEnded(t); } else { PlusAtEnd(); }
    } else {
      PlainTidy(f, true);
      if t == "" {
        LiteralAtEnd(f, true);
      } else if f[0] == t[0] {
        DropEqual(f, t, true);
        PlainMatch(f[1..], t[1..]);
        assert f == [f[0]] + f[1..] && t == [t[0]] + t[1..];
      } else {
        LiteralDiffers(f, t);
      }
    }
  }

  lemma PlainFilter(f: string, t: string)
    requires f != "" && NoWild(f) && AgreeOnDollar(f, t)
    ensures WellFormed(f) && (MqttMatch(f, t) <==> f == t)
  {
    PlainTidy(f, true);
    TidyLevels(f, true);
    PlainMatch(f, t);
    MatchIsRest(f, t);
  }

  lemma {:induction false} PlusStep(f: string, t: string, g: string, u: string)
    requires f != "" && f[0] == '+' && Tidy(f, true) && g == f[1..]
    requires Split(u)[1..] == Split(t)[1..] && (u == "" || u[0] == '/')
    ensures Rest(f, t) == Rest(g, u)
  {
    DropPlus(f, Split(t), u);
  }

  // ---- What is left of a filter passes what is left of a topic.

  /** `start` and `plus` say whether a slash (or nothing) or a `+` stands before `f`. */
  predicate PassesAt(f: string, start: bool, plus: bool, t: string, n: nat) {
    && n < |f| - 2 && f[n] == '/' && f[n + 1] == '#' && (if n == 0 then plus else f[n - 1] == '+')
    && Tidy(f[..n], start) && Rest(f[..n], t)
  }

  ghost predicate Passes(f: string, start: bool, plus: bool, t: string) {
    (Tidy(f, start) && Rest(f, t)) || exists n: nat :: PassesAt(f, start, plus, t, n)
  }

  lemma PassesWhole(f: string, t: string)
    requires f != "" && AgreeOnDollar(f, t)
    ensures Passes(f, true, false, t) <==> Accepts(f, t)
  {
    hide Tidy, LevelsOk, Rest, MqttMatch;
    TidyLevels(f, true);
    MatchIsRest(f, t);
    forall n: nat ensures PassesAt(f, true, false, t, n) <==> OverrunsAt(f, t, n) {
      if 0 < n < |f| {
        TidyLevels(f[..n], true);
        MatchIsRest(f[..n], t);
      }
    }
  }

  /** A well-formed filter is no overrun: its `#` is last. */
  lemma {:induction false} TidyPasses(f: string, start: bool, plus: bool, t: string)
    requires Tidy(f, start)
    ensures Passes(f, start, plus, t) <==> Rest(f, t)
  {
    hide Rest;
    forall n: nat ensures !PassesAt(f, start, plus, t, n) {
      if n < |f| - 2 && f[n + 1] == '#' { TidyHash(f, start, n + 1); }
    }
  }

  lemma {:induction false} TidyHash(f: string, start: bool, n: nat)
    requires Tidy(f, start) && n < |f| && f[n] == '#'
    ensures n == |f| - 1
  {
    if n > 0 { TidyHash(f[1..], f[0] == '/', n - 1); }
  }

  lemma TidyUnfold(f: string, start: bool)
    requires f != ""
    ensures Tidy(f, start) <==>
      && (f[0] == '#' ==> start && |f| == 1)
      && (f[0] == '+' ==> start && (|f| == 1 || f[1] == '/'))
      && Tidy(f[1..], f[0] == '/')
  {
  }

  /** The part before an overrun, one byte on. */
  lemma CutStep(f: string, n: nat)
    requires 0 < n <= |f|
    ensures f[..n] != "" && f[..n][0] == f[0] && f[..n][1..] == f[1..][..n - 1] && (n > 1 ==> f[..n][1] == f[1])
    ensures |f[..n]| == n
  {
  }

  lemma PassEqual(f: string, start: bool, plus: bool, t: string)
    requires f != "" && t != "" && f[0] == t[0] && !IsWild(f[0])
    ensures Passes(f, start, plus, t) == Passes(f[1..], f[0] == '/', false, t[1..])
  {
    hide Tidy, Rest;
    var g, s := f[1..], f[0] == '/';
    TidyUnfold(f, start);
    if Tidy(f, start) { DropEqual(f, t, start); }
    forall n: nat ensures PassesAt(f, start, plus, t, n + 1) <==> PassesAt(g, s, false, t[1..], n) {
      if n < |g| {
        CutStep(f, n + 1);
        TidyUnfold(f[..n + 1], start);
        if Tidy(f[..n + 1], start) { DropEqual(f[..n + 1], t, start); }
      }
    }
    FilterEnded(t);
    Shift(f, start, plus, t, g, s, false, t[1..]);
  }

  /** Overruns of `f` are those of `g` one byte on. */
  lemma Shift(f: string, start: bool, plus: bool, t: string, g: string, start': bool,
      plus': bool, u: string)
    requires !PassesAt(f, start, plus, t, 0)
    requires forall n: nat :: PassesAt(f, start, plus, t, n + 1) <==> PassesAt(g, start', plus', u, n)
    ensures (exists n: nat :: PassesAt(f, start, plus, t, n)) <==> exists n: nat :: PassesAt(g, start', plus', u, n)
  {
    hide PassesAt;
    if n: nat :| PassesAt(f, start, plus, t, n) {
      assert n != 0;
      var m := n - 1;
      assert PassesAt(f, start, plus, t, m + 1);
      assert PassesAt(g, start', plus', u, m);
    }
    if n: nat :| PassesAt(g, start', plus', u, n) {
      assert PassesAt(f, start, plus, t, n + 1);
    }
  }

  /** A `+` that takes its whole level, and the level of the topic. */
  lemma {:induction false} PassPlus(f: string, plus: bool, t: string, u: string)
    requires f != "" && f[0] == '+' && (|f| == 1 || f[1] == '/')
    requires Split(u)[1..] == Split(t)[1..] && (u == "" || u[0] == '/')
    ensures Passes(f, true, plus, t) == Passes(f[1..], false, true, u)
  {
    hide Tidy, Rest, Split;
    var g := f[1..];
    TidyUnfold(f, true);
    if Tidy(f, true) { PlusStep(f, t, g, u); }
    forall n: nat ensures PassesAt(f, true, plus, t, n + 1) <==> PassesAt(g, false, true, u, n) {
      if n < |g| {
        var h := f[..n + 1];
        CutStep(f, n + 1);
        TidyUnfold(h, true);
        if Tidy(h, true) { PlusStep(h, t, g[..n], u); }
      }
    }
    Shift(f, true, plus, t, g, false, true, u);
  }

  lemma PassBadPlus(f: string, start: bool, plus: bool, t: string)
    requires f != "" && f[0] == '+' && !(start && (|f| == 1 || f[1] == '/'))
    ensures !Passes(f, start, plus, t)
  {
    hide Tidy, Rest;
    TidyUnfold(f, start);
    forall n: nat ensures !PassesAt(f, start, plus, t, n) {
      if 0 < n < |f| {
        CutStep(f, n);
        TidyUnfold(f[..n], start);
      }
    }
  }

  lemma PassHash(f: string, start: bool, plus: bool, t: string)
    requires f != "" && f[0] == '#'
    ensures Passes(f, start, plus, t) <==> start && |f| == 1
  {
    hide Tidy, Rest;
    TidyUnfold(f, start);
    if Tidy(f, start) {
      HashMatches(f, t);
    } else if |f| == 1 {
      TidyEmpty(f[1..], false);
    }
    forall n: nat ensures !PassesAt(f, start, plus, t, n) {
      if 0 < n < |f| {
        CutStep(f, n);
        TidyUnfold(f[..n], start);
      }
    }
  }

  lemma {:induction false} TidyEmpty(f: string, start: bool)
    requires f == ""
    ensures Tidy(f, start)
  {
  }

  lemma PassOther(f: string, start: bool, plus: bool, t: string)
    requires f != "" && t != "" && !IsWild(f[0]) && f[0] != t[0]
    ensures !Passes(f, start, plus, t)
  {
    hide Tidy, Rest;
    LiteralDiffers(f, t);
    FilterEnded(t);
    forall n: nat ensures !PassesAt(f, start, plus, t, n) {
      if 0 < n < |f| {
        CutStep(f, n);
        LiteralDiffers(f[..n], t);
      }
    }
  }

  /** The topic is used up and the filter goes on. */
  lemma PassAtEnd(f: string, start: bool, plus: bool)
    requires f != "" && !IsWild(f[0])
    ensures Passes(f, start, plus, "") <==>
      |f| > 1 && f[0] == '/' && f[1] == '#' && (plus || |f| == 2)
  {
    hide Tidy, Rest;
    if Tidy(f, start) { LiteralAtEnd(f, start); }
    if |f| == 2 && f[0] == '/' && f[1] == '#' { TidyEnd(f, start); }
    PlusAtEnd();
    forall n: nat ensures PassesAt(f, start, plus, "", n) ==> n == 0 {
      if 0 < n < |f| {
        CutStep(f, n);
        if Tidy(f[..n], start) { LiteralAtEnd(f[..n], start); }
      }
    }
    if plus && |f| > 2 && f[0] == '/' && f[1] == '#' {
      TidyEmpty(f[..0], start);
      assert PassesAt(f, start, plus, "", 0);
    }
  }

  lemma {:induction false} TidyEnd(f: string, start: bool)
    requires f == "/#"
    ensures Tidy(f, start)
  {
    assert f[1..] == "#" && f[1..][1..] == "";
  }

  lemma PassEnds(start: bool, plus: bool, t: string)
    ensures Passes("", start, plus, t) <==> t == ""
    ensures Passes("+", true, plus, "")
  {
    hide Rest;
    PlusAtEnd();
    if t != "" { FilterEnded(t); }
    assert "+"[1..] == "";
  }

  /** An overrun is never well formed, so accepting one departs from the purpose of the scan. */
  lemma OverrunMalformed(f: string, t: string)
    ensures Overruns(f, t) ==> !WellFormed(f)
  {
    hide Tidy, LevelsOk, MqttMatch;
    TidyLevels(f, true);
    if Overruns(f, t) && WellFormed(f) {
      var n: nat :| OverrunsAt(f, t, n);
      TidyHash(f, true, n + 1);
    }
  }

  /** A filter without wildcards takes its own text and what disagrees on a leading `$`. */
  lemma PlainTakes(f: string, t: string)
    requires f != "" && t != "" && NoWild(f)
    ensures Takes(f, t) <==> f == t || !AgreeOnDollar(f, t)
  {
    hide MqttMatch, LevelsOk;
    if AgreeOnDollar(f, t) {
      PlainFilter(f, t);
      OverrunMalformed(f, t);
    }
  }

  lemma OverrunAccepted()
    ensures !WellFormed("+/#x") && Takes("+/#x", "a")
  {
    var f := "+/#x";
    assert f[..1] == "+" && "+"[1..] == "" && "a"[1..] == "";
    assert OverrunsAt(f, "a", 1);
    OverrunMalformed(f, "a");
  }

  // ---- The scan.

  /** What stands before position `i` of the filter. */
  predicate LevelStarts(sub: string, i: nat)
    requires i <= |sub|
  {
    i == 0 || sub[i - 1] == '/'
  }

  predicate BehindPlus(sub: string, i: nat)
    requires i <= |sub|
  {
    i > 0 && sub[i - 1] == '+'
  }

  /** Whether the rest of the filter at `i` passes the rest of the topic at `j`. */
  ghost predicate PassesFrom(sub: string, i: nat, topic: string, j: nat)
    requires i <= |sub| && j <= |topic|
  {
    Passes(sub[i..], LevelStarts(sub, i), BehindPlus(sub, i), topic[j..])
  }

  /** The scan stands at `i` and `j`; `all` is the answer it is to give on a plain topic. */
  ghost predicate Scanned(sub: string, i: nat, topic: string, j: nat, all: bool) {
    && i <= |sub| && j <= |topic| && NoWild(topic[..j]) && !(i == |sub| && j == |topic|)
    && (NoWild(topic) ==> all == PassesFrom(sub, i, topic, j))
    && (j == |topic| && i + 2 == |sub| && sub[i] == '/' && sub[i + 1] == '#' ==> BehindPlus(sub, i))
  }

  ghost predicate Answers(rc: Code, topic: string, all: bool) {
    (rc == SUCCESS || rc == FAILURE) && (rc == SUCCESS <==> NoWild(topic) && all)
  }

  lemma NotPlain(topic: string, j: nat)
    requires j < |topic| && IsWild(topic[j])
    ensures !NoWild(topic)
  {
  }

  /** The loop over one level of the topic, for a `+`. */
  method SkipLevel(topic: string, from: nat) returns (ok: bool, j: nat)
    requires CText(topic) && from <= |topic| && NoWild(topic[..from])
    ensures from <= j <= |topic| && (ok ==> NoWild(topic[..j]))
    ensures ok ==> (j == |topic| || topic[j] == '/') && Split(topic[j..])[1..] == Split(topic[from..])[1..]
    ensures !ok ==> !NoWild(topic)
  {
    hide Split;
    j := from;
    while CharAt(topic, j) != '\0' && CharAt(topic, j) != '/'
      invariant from <= j <= |topic| && NoWild(topic[..j])
      invariant Split(topic[j..])[1..] == Split(topic[from..])[1..]
      decreases |topic| - j
    {
      if CharAt(topic, j) == '+' || CharAt(topic, j) == '#' {
        return false, j;
      }
      DropInLevel(topic[j..]);
      assert topic[j..][1..] == topic[j + 1..];
      j := j + 1;
    }
    ok := true;
  }

  /** The loop over the rest of the topic, for a `#`. */
  method SkipRest(topic: string, from: nat) returns (ok: bool)
    requires CText(topic) && from <= |topic| && NoWild(topic[..from])
    ensures ok == NoWild(topic)
  {
    var j := from;
    while CharAt(topic, j) != '\0'
      invariant from <= j <= |topic| && NoWild(topic[..j])
      decreases |topic| - j
    {
      if CharAt(topic, j) == '+' || CharAt(topic, j) == '#' {
        return false;
      }
      j := j + 1;
    }
    assert topic[..j] == topic;
    ok := true;
  }

  /** Looks for a `#` that is not last; the caller fails either way. */
  method ScanFilter(sub: string, from: nat)
    requires CText(sub) && from <= |sub|
  {
    var i := from;
    while CharAt(sub, i) != '\0'
      invariant i <= |sub|
      decreases |sub| - i
    {
      if sub[i] == '#' && CharAt(sub, i + 1) != '\0' {
        return;
      }
      i := i + 1;
    }
  }

  /** A `+` in the filter. */
  method MatchPlus(sub: string, from: nat, topic: string, at: nat, ghost all: bool)
    returns (done: bool, rc: Code, i: nat, j: nat)
    requires CText(sub) && CText(topic) && Scanned(sub, from, topic, at, all) && CharAt(sub, from) == '+'
    ensures done ==> Answers(rc, topic, all)
    ensures !done ==> from < i && Scanned(sub, i, topic, j, all)
  {
    hide Split, Passes;
    i, j := from, at;
    if i > 0 && sub[i - 1] != '/' {
      PassBadPlus(sub[from..], false, BehindPlus(sub, from), topic[at..]);
      return true, FAILURE, i, j;
    }
    if CharAt(sub, i + 1) != '\0' && CharAt(sub, i + 1) != '/' {
      PassBadPlus(sub[from..], true, BehindPlus(sub, from), topic[at..]);
      return true, FAILURE, i, j;
    }
    i := i + 1;
    var ok;
    ok, j := SkipLevel(topic, j);
    if !ok {
      return true, FAILURE, i, j;
    }
    PassPlus(sub[from..], BehindPlus(sub, from), topic[at..], topic[j..]);
    assert sub[from..][1..] == sub[i..];
    if CharAt(topic, j) == '\0' && CharAt(sub, i) == '\0' {
      PassEnds(false, true, "");
      assert topic[..j] == topic && sub[i..] == "" && topic[j..] == "";
      return true, SUCCESS, i, j;
    }
    return false, FAILURE, i, j;
  }

  /** A `#` in the filter. */
  method MatchHash(sub: string, i: nat, topic: string, j: nat, ghost all: bool) returns (rc: Code)
    requires CText(sub) && CText(topic) && Scanned(sub, i, topic, j, all) && CharAt(sub, i) == '#'
    ensures Answers(rc, topic, all)
  {
    hide Passes;
    PassHash(sub[i..], LevelStarts(sub, i), BehindPlus(sub, i), topic[j..]);
    if i > 0 && sub[i - 1] != '/' {
      return FAILURE;
    }
    if CharAt(sub, i + 1) != '\0' {
      return FAILURE;
    }
    var ok := SkipRest(topic, j);
    return if ok then SUCCESS else FAILURE;
  }

  /** A literal byte in the filter that the topic does not have. */
  method MatchOther(sub: string, i: nat, topic: string, j: nat, ghost all: bool) returns (rc: Code)
    requires CText(sub) && CText(topic) && Scanned(sub, i, topic, j, all)
    requires i < |sub| && !IsWild(sub[i]) && sub[i] != CharAt(topic, j)
    ensures Answers(rc, topic, all)
  {
    hide Passes;
    ghost var f, start, plus := sub[i..], LevelStarts(sub, i), BehindPlus(sub, i);
    if j == |topic| { PassAtEnd(f, start, plus); } else { PassOther(f, start, plus, topic[j..]); }
    if CharAt(topic, j) == '\0' && i > 0 && sub[i - 1] == '+' && sub[i] == '/' && CharAt(sub, i + 1) == '#' {
      assert topic[..j] == topic && topic[j..] == "";
      return SUCCESS;
    }
    ScanFilter(sub, i);
    return FAILURE;
  }

  /** A byte that both have. */
  method MatchEqual(sub: string, from: nat, topic: string, at: nat, ghost all: bool)
    returns (done: bool, rc: Code, i: nat, j: nat)
    requires CText(sub) && CText(topic) && Scanned(sub, from, topic, at, all)
    requires from < |sub| && at < |topic| && sub[from] == topic[at] && !IsWild(topic[at])
    ensures done ==> Answers(rc, topic, all)
    ensures !done ==> from < i && Scanned(sub, i, topic, j, all)
  {
    hide Passes;
    PassEqual(sub[from..], LevelStarts(sub, from), BehindPlus(sub, from), topic[at..]);
    assert sub[from..][1..] == sub[from + 1..] && topic[at..][1..] == topic[at + 1..];
    assert topic[..at + 1] == topic[..at] + [topic[at]];
    i, j := from + 1, at + 1;
    if CharAt(topic, j) == '\0' {
      assert topic[..j] == topic && topic[j..] == "";
      if CharAt(sub, i) == '/' && CharAt(sub, i + 1) == '#' && CharAt(sub, i + 2) == '\0' {
        PassAtEnd(sub[i..], LevelStarts(sub, i), BehindPlus(sub, i));
        return true, SUCCESS, i, j;
      }
    }
    if CharAt(sub, i) == '\0' && CharAt(topic, j) == '\0' {
      PassEnds(LevelStarts(sub, i), BehindPlus(sub, i), "");
      assert sub[i..] == "";
      return true, SUCCESS, i, j;
    } else if CharAt(topic, j) == '\0' && CharAt(sub, i) == '+' && CharAt(sub, i + 1) == '\0' {
      assert sub[i..] == "+";
      if i > 0 && sub[i - 1] != '/' {
        PassBadPlus(sub[i..], false, BehindPlus(sub, i), "");
        return true, FAILURE, i, j;
      }
      PassEnds(true, BehindPlus(sub, i), "");
      return true, SUCCESS, i, j;
    }
    return false, FAILURE, i, j;
  }

  /**
   * The answer for every pair of texts. For a well-formed filter and a topic without
   * wildcards it is MQTT's, except on the pairs that disagree on a leading `$`.
   */
  method Match(sub: string, topic: string) returns (rc: Code)
    requires CText(sub) && CText(topic)
    ensures (rc == SUCCESS || rc == FAILURE) && (rc == SUCCESS <==> Takes(sub, topic))
    ensures WellFormed(sub) && topic != "" && NoWild(topic) ==>
      (rc == SUCCESS <==> MqttMatch(sub, topic) || !AgreeOnDollar(sub, topic))
  {
    hide MqttMatch, LevelsOk, Split, Passes, Accepts;
    if CharAt(sub, 0) == '\0' || CharAt(topic, 0) == '\0' {
      return FAILURE;
    }
    if (sub[0] == '$' && topic[0] != '$') || (topic[0] == '$' && sub[0] != '$') {
      return SUCCESS;
    }
    ghost var all := Accepts(sub, topic);
    WholeScan(sub, topic);
    var i: nat, j: nat := 0, 0;
    var done;
    while CharAt(sub, i) != '\0'
      invariant Scanned(sub, i, topic, j, all)
      decreases |sub| - i
    {
      if CharAt(topic, j) == '+' || CharAt(topic, j) == '#' {
        NotPlain(topic, j);
        return FAILURE;
      }
      if CharAt(sub, i) != CharAt(topic, j) || CharAt(topic, j) == '\0' {
        if sub[i] == '+' {
          done, rc, i, j := MatchPlus(sub, i, topic, j, all);
          if done {
            return;
          }
        } else if sub[i] == '#' {
          rc := MatchHash(sub, i, topic, j, all);
          return;
        } else {
          rc := MatchOther(sub, i, topic, j, all);
          return;
        }
      } else {
        done, rc, i, j := MatchEqual(sub, i, topic, j, all);
        if done {
          return;
        }
      }
    }
    // The filter is used up and the topic is not.
    PassEnds(LevelStarts(sub, i), BehindPlus(sub, i), topic[j..]);
    assert sub[i..] == "";
    return FAILURE;
  }

  lemma WholeScan(sub: string, topic: string)
    requires sub != "" && topic != "" && AgreeOnDollar(sub, topic)
    ensures Scanned(sub, 0, topic, 0, Accepts(sub, topic))
    ensures WellFormed(sub) ==> (Accepts(sub, topic) <==> MqttMatch(sub, topic))
  {
    hide Passes, Accepts, Rest, LevelsOk, Split, Tidy, MqttMatch;
    PassesWhole(sub, topic);
    TidyLevels(sub, true);
    MatchIsRest(sub, topic);
    if Tidy(sub, true) { TidyPasses(sub, true, false, topic); }
    assert sub[0..] == sub && topic[0..] == topic;
  }
}
