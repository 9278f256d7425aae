// Path names (src/fn.c): the translation of the Amiga's "//" and the in-place
// normaliser, against a stack of path components. A path is the text before the
// terminating NUL.
module PathName {
  type Path = s: string | '\0' !in s

  datatype Unified = Unified(path: string) | ObjectNotFound | InvalidComponentName

  // ---- Meaning --------------------------------------------------------------------

  // The components between the separators: one more than there are separators.
  function Split(s: string): (r: seq<string>)
    ensures r != []
  {
    if s == [] then [""]
    else if s[0] == '/' then [""] + Split(s[1..])
    else [[s[0]] + Split(s[1..])[0]] + Split(s[1..])[1..]
  }

  function Join(cs: seq<string>): string {
    if cs == [] then ""
    else if |cs| == 1 then cs[0]
    else Join(cs[..|cs| - 1]) + "/" + cs[|cs| - 1]
  }

  datatype Stack = Fails | Holds(comps: seq<string>)

  // "." is skipped, ".." and an empty component drop the component before,
  // except that an empty one at the end means nothing; others are added.
  function Fold(st: seq<string>, cs: seq<string>): Stack
    decreases |cs|
  {
    if cs == [] then Holds(st)
    else if cs[0] == "." || (cs[0] == "" && |cs| == 1) then Fold(st, cs[1..])
    else if cs[0] == ".." || cs[0] == "" then
      if st == [] then Fails else Fold(st[..|st| - 1], cs[1..])
    else Fold(st + [cs[0]], cs[1..])
  }

  // The code loses one dot at the end of a component (src/fn.c:477-481).
  function TrimDot(c: string): string {
    if c != "" && c[|c| - 1] == '.' then c[..|c| - 1] else c
  }

  function TrimAll(st: seq<string>): (r: seq<string>)
    ensures |r| == |st|
  {
    seq(|st|, i requires 0 <= i < |st| => TrimDot(st[i]))
  }

  predicate Leading(s: string) {
    var first := Split(s)[0];
    first == ".." || (first == "" && s != "")
  }

  // What fn_PathUnify computes.
  function Unify(s: string): Unified {
    if Leading(s) then ObjectNotFound
    else
      match Fold([], Split(s))
      case Fails => InvalidComponentName
      case Holds(st) => Unified(Join(TrimAll(st)))
  }

  // ---- Components -----------------------------------------------------------------

  predicate Special(c: string) {
    c == "" || c == "." || c == ".."
  }

  // The text at position i, or NUL behind the end.
  function At(s: string, i: nat): char {
    if i < |s| then s[i] else '\0'
  }

  lemma {:induction false} SplitFirst(s: Path)
    ensures var f := Split(s)[0];
      && '/' !in f && |f| <= |s| && f == s[..|f|]
      && (if |f| == |s| then Split(s)[1..] == [] else s[|f|] == '/' && Split(s)[1..] == Split(s[|f| + 1..]))
      && (At(s, 0) == '/' || s == "" <==> f == "")
      && (At(s, 0) == '.' && (At(s, 1) == '/' || |s| == 1) <==> f == ".")
      && (At(s, 0) == '.' && At(s, 1) == '.' && (At(s, 2) == '/' || |s| == 2) <==> f == "..")
  {
    if s != [] && s[0] != '/' {
      SplitFirst(s[1..]);
      var f, g := Split(s)[0], Split(s[1..])[0];
      assert f == [s[0]] + g && g == s[1..][..|g|];
      assert f == s[..|f|];
      if |f| < |s| { assert s[|f|] == s[1..][|g|] && s[|f| + 1..] == s[1..][|g| + 1..]; }
    } else if s != [] {
      assert s[1..] == s[0 + 1..];
    }
  }

  // ---- Where the scan stands --------------------------------------------------------

  // The components before `rest` are complete; rest is empty or starts with "/".
  ghost predicate Closed(goal: Stack, st: seq<string>, rest: Path) {
    if rest == "" then goal == Holds(st) else rest[0] == '/' && goal == Fold(st, Split(rest[1..]))
  }

  // A component starts at `rest` that is neither ".." nor followed by "//".
  ghost predicate Start(goal: Stack, st: seq<string>, rest: Path) {
    && goal == Fold(st, Split(rest))
    && Split(rest)[0] != ".." && (Split(rest)[0] == "" ==> rest == "")
  }

  // A component has begun with cur and goes on at `rest`.
  ghost predicate Open(goal: Stack, st: seq<string>, cur: string, rest: Path) {
    && goal == Fold(st, [cur + Split(rest)[0]] + Split(rest)[1..])
    && cur != "" && '/' !in cur && !Special(cur + Split(rest)[0])
    && (Boundary(rest, 0) ==> cur[|cur| - 1] != '.')
  }

  predicate Boundary(s: string, i: nat) {
    At(s, i) == '/' || At(s, i) == '\0'
  }

  lemma FoldCons(st: seq<string>, c: string, cs: seq<string>)
    ensures Fold(st, [c] + cs) ==
      if c == "." || (c == "" && cs == []) then Fold(st, cs)
      else if c == ".." || c == "" then if st == [] then Fails else Fold(st[..|st| - 1], cs)
      else Fold(st + [c], cs)
  {
  }

  // What follows a "/" (src/fn.c:404-468)
  lemma AfterSlash(goal: Stack, st: seq<string>, rest: Path)
    requires Closed(goal, st, rest) && rest != ""
    ensures var r := rest[1..];
      if r == "" then Closed(goal, st, r)
      else if r[0] == '/' then if st == [] then goal == Fails else goal == Fold(st[..|st| - 1], Split(r[1..]))
      else if r[0] == '.' && Boundary(r, 1) then Closed(goal, st, r[1..])
      else if r[0] == '.' && At(r, 1) == '.' && Boundary(r, 2) then
        if st == [] then goal == Fails else |r| >= 2 && Closed(goal, st[..|st| - 1], r[2..])
      else Start(goal, st, r)
  {
    var r := rest[1..];
    SplitFirst(r);
    assert Split(r) == [Split(r)[0]] + Split(r)[1..];
    FoldCons(st, Split(r)[0], Split(r)[1..]);
  }

  lemma OpenEnds(goal: Stack, st: seq<string>, cur: string, rest: Path)
    requires Open(goal, st, cur, rest) && Boundary(rest, 0)
    ensures Closed(goal, st + [cur], rest) && TrimDot(cur) == cur
  {
    SplitFirst(rest);
    assert cur + Split(rest)[0] == cur;
    FoldCons(st, cur, Split(rest)[1..]);
  }

  lemma StartSteps(goal: Stack, st: seq<string>, rest: Path)
    requires Start(goal, st, rest) && rest != ""
    ensures rest[0] != '/'
    ensures if rest[0] == '.' && Boundary(rest, 1) then Closed(goal, st, rest[1..])
            else Open(goal, st, [rest[0]], rest[1..])
  {
    SplitFirst(rest);
    SplitFirst(rest[1..]);
    assert Split(rest) == [Split(rest)[0]] + Split(rest)[1..];
    FoldCons(st, Split(rest)[0], Split(rest)[1..]);
  }

  lemma OpenSteps(goal: Stack, st: seq<string>, cur: string, rest: Path)
    requires Open(goal, st, cur, rest) && !Boundary(rest, 0)
    ensures rest != "" && rest[0] != '/'
    ensures if rest[0] == '.' && Boundary(rest, 1) then Closed(goal, st + [cur + "."], rest[1..]) && TrimDot(cur + ".") == cur
            else Open(goal, st, cur + [rest[0]], rest[1..])
  {
    SplitFirst(rest);
    SplitFirst(rest[1..]);
    var f := Split(rest)[0];
    assert cur + f == cur + [rest[0]] + Split(rest[1..])[0];
    FoldCons(st, cur + f, Split(rest)[1..]);
  }

  // ---- The text written so far --------------------------------------------------------

  ghost predicate Clean(ts: seq<string>) {
    forall i :: 0 <= i < |ts| ==> ts[i] != "" && '/' !in ts[i]
  }

  lemma JoinSnoc(ts: seq<string>, c: string)
    ensures Join(ts + [c]) == if ts == [] then c else Join(ts) + "/" + c
  {
  }

  lemma {:induction false} JoinEmpty(ts: seq<string>)
    requires Clean(ts)
    ensures Join(ts) == "" <==> ts == []
    ensures ts != [] ==> Join(ts)[0] != '/'
  {
    if |ts| > 1 {
      JoinEmpty(ts[..|ts| - 1]);
    }
  }

  // Strips the last component of the text d[..k] (src/fn.c:419-426, 450-457).
  method Strip(d: array<char>, k: nat, ghost ts: seq<string>) returns (k': nat)
    requires k <= d.Length && Clean(ts) && ts != [] && d[..k] == Join(ts)
    ensures k' < k && d[..k'] == Join(ts[..|ts| - 1])
  {
    hide Join;
    ghost var init, c := ts[..|ts| - 1], ts[|ts| - 1];
    assert ts == init + [c];
    JoinSnoc(init, c);
    JoinEmpty(init);
    ghost var from := if init == [] then 0 else |Join(init)| + 1;
    assert forall j :: from <= j < k ==> d[j] == d[..k][j] == c[j - from];
    k' := k - 1;
    while k' != 0 && d[k'] != '/'
      invariant (if init == [] then 0 else from - 1) <= k' < k
    {
      k' := k' - 1;
    }
    if init == [] {
      assert forall j :: 0 <= j < k ==> c[j] != '/';
    } else {
      assert d[..k][from - 1] == '/';
    }
    assert d[..k'] == d[..k][..k'];
  }

  ghost predicate Wrote(d: array<char>, k: nat, ts: seq<string>)
    reads d
  {
    k <= d.Length && Clean(ts) && d[..k] == Join(ts)
  }

  lemma TrimSnoc(st: seq<string>, c: string)
    ensures TrimAll(st + [c]) == TrimAll(st) + [TrimDot(c)]
    ensures st != [] ==> TrimAll(st[..|st| - 1]) == TrimAll(st)[..|st| - 1]
  {
  }

  datatype Mode = AtEnd | AtStart | Inside

  ghost predicate Scan(goal: Stack, st: seq<string>, cur: string, mode: Mode, rest: Path) {
    match mode
    case AtEnd => Closed(goal, st, rest)
    case AtStart => Start(goal, st, rest)
    case Inside => Open(goal, st, cur, rest)
  }

  function Texts(st: seq<string>, cur: string, mode: Mode): seq<string> {
    if mode.Inside? then TrimAll(st) + [cur] else TrimAll(st)
  }

  lemma EmptyComponent(st: seq<string>, rest: Path)
    requires rest != "" && rest[0] == '/'
    ensures Fold(st, Split(rest)) == if st == [] then Fails else Fold(st[..|st| - 1], Split(rest[1..]))
  {
  }

  // The second and later of several "/" (src/fn.c:405-429)
  method ManySlashes(s: Path, i: nat, d: array<char>, k: nat, ghost goal: Stack, ghost st: seq<string>)
    returns (ok: bool, i': nat, k': nat, ghost st': seq<string>)
    requires 0 < i < |s| && s[i] == '/' && Closed(goal, st, s[i - 1..])
    requires Wrote(d, k, TrimAll(st)) && k < i
    ensures !ok ==> goal == Fails
    ensures ok ==> i <= i' < |s| && k' < i' && Wrote(d, k', TrimAll(st')) && Closed(goal, st', s[i'..])
  {
    hide Fold, Split, Join;
    i', k', st' := i, k, st;
    assert s[i - 1..][1..] == s[i..];
    while i' < |s| && s[i'] == '/'
      invariant i <= i' <= |s| && k' < i' && s[i' - 1] == '/' && (i' == i || k' + 1 < i')
      invariant goal == Fold(st', Split(s[i'..]))
      invariant Wrote(d, k', TrimAll(st'))
      decreases |s| - i'
    {
      EmptyComponent(st', s[i'..]);
      JoinEmpty(TrimAll(st'));
      if k' == 0 {
        return false, i', k', st';
      }
      k' := Strip(d, k', TrimAll(st'));
      TrimSnoc(st', "");
      assert s[i'..][1..] == s[i' + 1..];
      st' := st'[..|st'| - 1];
      i' := i' + 1;
    }
    i' := i' - 1;
    assert s[i'..][1..] == s[i' + 1..];
    return true, i', k', st';
  }

  // A "/" directly behind another, among the first n characters
  ghost predicate Doubled(s: string, n: int) {
    exists j :: 0 < j < n && j < |s| && s[j - 1] == '/' && s[j] == '/'
  }

  // What happens at a "/"; i is the position behind it (src/fn.c:403-475).
  method Slash(s: Path, i: nat, d: array<char>, k: nat, addSep: bool, ghost goal: Stack, ghost st: seq<string>)
    returns (ok: bool, i': nat, k': nat, addSep': bool, many: bool, ghost st': seq<string>, ghost mode: Mode)
    requires 0 < i <= |s| && Closed(goal, st, s[i - 1..]) && s[i - 1] == '/'
    requires Wrote(d, k, TrimAll(st)) && k < i
    ensures !ok ==> goal == Fails
    ensures ok ==> i <= i' <= |s| && k' < i' && Wrote(d, k', TrimAll(st')) && Scan(goal, st', "", mode, s[i'..])
    ensures ok && mode.AtStart? ==> addSep'
    ensures mode != Inside
    ensures many <==> i < |s| && s[i] == '/'
    ensures ok && !many ==> forall j :: i <= j <= i' && j < |s| ==> s[j - 1] != '/' || s[j] != '/'
  {
    hide Fold, Split, Join;
    ok, i', k', addSep', many, st', mode := true, i, k, addSep, false, st, AtEnd;
    assert s[i - 1..][1..] == s[i..];
    AfterSlash(goal, st, s[i - 1..]);
    if i == |s| {
      return;
    }
    if s[i] == '/' {
      ok, i', k', st' := ManySlashes(s, i, d, k, goal, st);
      addSep', many := true, true;
    } else if s[i] == '.' && Boundary(s, i + 1) {
      i' := i + 1;
      assert s[i..][1..] == s[i'..];
    } else if s[i] == '.' && At(s, i + 1) == '.' && Boundary(s, i + 2) {
      JoinEmpty(TrimAll(st));
      if k == 0 {
        return false, i, k, addSep, false, st, AtEnd;
      }
      k' := Strip(d, k, TrimAll(st));
      TrimSnoc(st, "");
      st' := st[..|st| - 1];
      i', addSep' := i + 2, true;
      assert s[i..][2..] == s[i'..];
    } else {
      addSep', mode := true, AtStart;
    }
  }

  // An ordinary character, with the separator before a new component
  method WriteChar(d: array<char>, k: nat, addSep: bool, c: char, ghost ts: seq<string>, ghost cur: string, ghost mode: Mode)
    returns (k': nat)
    requires mode != AtEnd && c != '/' && (mode.AtStart? ==> ts == [] || addSep) && (mode.Inside? ==> !addSep && '/' !in cur)
    requires Wrote(d, k, if mode.Inside? then ts + [cur] else ts)
    requires k + 1 < d.Length
    modifies d
    ensures k' == k + 1 || (k' == k + 2 && ts != [] && mode.AtStart?)
    ensures Wrote(d, k', ts + [if mode.Inside? then cur + [c] else [c]])
  {
    hide Join, Clean;
    ghost var texts := if mode.Inside? then ts + [cur] else ts;
    ghost var before := d[..k];
    JoinEmpty(texts);
    CleanMore(ts, cur, c, mode.Inside?);
    JoinSnoc(ts, cur);
    JoinSnoc(ts, cur + [c]);
    JoinSnoc(ts, [c]);
    k' := k;
    if addSep && k' != 0 {
      d[k'] := '/';
      k' := k' + 1;
    }
    d[k'] := c;
    k' := k' + 1;
    assert d[..k'] == before + (if k' == k + 2 then ['/'] else []) + [c];
    if mode.Inside? {
      assert Join(ts + [cur]) + [c] == Join(ts + [cur + [c]]);
    }
  }

  lemma CleanMore(ts: seq<string>, cur: string, c: char, inside: bool)
    requires Clean(if inside then ts + [cur] else ts) && c != '/' && (inside ==> '/' !in cur)
    ensures Clean(ts + [if inside then cur + [c] else [c]])
  {
  }

  // fn_PathUnify. The buffer has one byte more than the path, for the NUL, so
  // the bounds of d show that no more characters are written than were read.
  // many tells whether "//" occurred, that is, whether a directory was stripped
  // by it: the caller then builds the full name anew (src/lock.c:417-421).
  method PathUnify(s: Path) returns (r: Unified, many: bool)
    ensures r == Unify(s)
    ensures r.Unified? ==> (many <==> Doubled(s, |s|))
  {
    hide Fold, Split, Join, Closed, Start, Open, Clean, TrimAll, TrimDot, Doubled, Noted;
    many := false;
    SplitFirst(s);
    if At(s, 0) == '/' || (At(s, 0) == '.' && At(s, 1) == '.' && Boundary(s, 2)) {
      return ObjectNotFound, many;
    }
    var d := new char[|s| + 1];
    var i: nat, k: nat, addSep := 0, 0, false;
    ghost var goal, st, cur, mode := Fold([], Split(s)), [], "", AtStart;
    ScanStarts(s);
    assert s[0..] == s;
    NotedStart(s);
    while i < |s|
      invariant k <= i <= |s|
      invariant Scan(goal, st, cur, mode, s[i..])
      invariant Wrote(d, k, Texts(st, cur, mode))
      invariant mode.AtStart? ==> st == [] || (addSep && k < i)
      invariant mode.Inside? ==> !addSep
      invariant Noted(s, i, many)
      decreases |s| - i
    {
      var c := s[i];
      ghost var rest, at := s[i..], i;
      i := i + 1;
      if c == '/' {
        st := ScanSlash(goal, st, cur, mode, rest);
        var ok, more;
        ok, i, k, addSep, more, st, mode := Slash(s, i, d, k, addSep, goal, st);
        ghost var noted := many;
        many := many || more;
        if !ok {
          return InvalidComponentName, many;
        }
        NotedOn(s, at, i, noted, many);
        cur := "";
      } else if c == '.' && Boundary(s, i) {
        NotedOn(s, at, i, many, many);
        st := ScanDot(goal, st, cur, mode, rest);
        cur, mode := "", AtEnd;
      } else {
        NotedOn(s, at, i, many, many);
        ScanChar(goal, st, cur, mode, rest);
        k := WriteChar(d, k, addSep, c, TrimAll(st), cur, mode);
        addSep := false;
        cur, mode := if mode.Inside? then cur + [c] else [c], Inside;
      }
    }
    st := ScanEnds(goal, st, cur, mode, s[i..]);
    NotedAll(s, many);
    return Unified(d[..k]), many;
  }

  // Before position i, and right there, `many` has been set for every "//".
  ghost predicate Noted(s: string, i: nat, many: bool) {
    && (many ==> Doubled(s, |s|)) && (Doubled(s, i) ==> many)
    && (0 < i < |s| && s[i - 1] == '/' && s[i] == '/' ==> many)
  }

  lemma NotedStart(s: string)
    ensures Noted(s, 0, false)
  {
  }

  lemma NotedOn(s: string, i: nat, i': nat, many: bool, many': bool)
    requires Noted(s, i, many) && i < i' <= |s|
    requires many' <==> many || (many' && i + 1 < |s| && s[i] == '/' && s[i + 1] == '/')
    requires !many' ==> forall j :: i < j <= i' && j < |s| ==> s[j - 1] != '/' || s[j] != '/'
    ensures Noted(s, i', many')
  {
  }

  lemma NotedAll(s: string, many: bool)
    requires Noted(s, |s|, many)
    ensures many <==> Doubled(s, |s|)
  {
  }

  lemma ScanStarts(s: Path)
    requires !Leading(s)
    ensures Scan(Fold([], Split(s)), [], "", AtStart, s) && Texts([], "", AtStart) == [] && Join([]) == "" && Clean([])
  {
  }

  lemma ScanSlash(goal: Stack, st: seq<string>, cur: string, mode: Mode, rest: Path) returns (st': seq<string>)
    requires Scan(goal, st, cur, mode, rest) && rest != "" && rest[0] == '/'
    ensures Closed(goal, st', rest) && TrimAll(st') == Texts(st, cur, mode)
  {
    match mode {
      case AtEnd => st' := st;
      case AtStart => StartSteps(goal, st, rest); st' := st;
      case Inside =>
        OpenEnds(goal, st, cur, rest);
        TrimSnoc(st, cur);
        st' := st + [cur];
    }
  }

  lemma ScanEnds(goal: Stack, st: seq<string>, cur: string, mode: Mode, rest: Path) returns (st': seq<string>)
    requires Scan(goal, st, cur, mode, rest) && rest == ""
    ensures goal == Holds(st') && TrimAll(st') == Texts(st, cur, mode)
  {
    match mode {
      case AtEnd => st' := st;
      case AtStart => assert Split(rest) == [""] + []; FoldCons(st, "", []); st' := st;
      case Inside =>
        OpenEnds(goal, st, cur, rest);
        TrimSnoc(st, cur);
        st' := st + [cur];
    }
  }

  lemma ScanDot(goal: Stack, st: seq<string>, cur: string, mode: Mode, rest: Path) returns (st': seq<string>)
    requires Scan(goal, st, cur, mode, rest) && rest != "" && rest[0] == '.' && Boundary(rest, 1)
    ensures Closed(goal, st', rest[1..]) && TrimAll(st') == Texts(st, cur, mode)
  {
    match mode {
      case AtEnd => st' := st;
      case AtStart => StartSteps(goal, st, rest); st' := st;
      case Inside =>
        OpenSteps(goal, st, cur, rest);
        TrimSnoc(st, cur + ".");
        st' := st + [cur + "."];
    }
  }

  lemma ScanChar(goal: Stack, st: seq<string>, cur: string, mode: Mode, rest: Path)
    requires Scan(goal, st, cur, mode, rest) && rest != "" && rest[0] != '/' && !(rest[0] == '.' && Boundary(rest, 1))
    ensures mode != AtEnd
    ensures Open(goal, st, if mode.Inside? then cur + [rest[0]] else [rest[0]], rest[1..])
  {
    match mode {
      case AtEnd =>
      case AtStart => StartSteps(goal, st, rest);
      case Inside => OpenSteps(goal, st, cur, rest);
    }
  }

  // ---- What the result means ------------------------------------------------------------

  ghost predicate DotFree(st: seq<string>) {
    forall i :: 0 <= i < |st| ==> TrimDot(st[i]) == st[i]
  }

  // The normaliser as its documentation has it.
  function Documented(s: string): Unified {
    if Leading(s) then ObjectNotFound
    else
      match Fold([], Split(s))
      case Fails => InvalidComponentName
      case Holds(st) => Unified(Join(st))
  }

  lemma {:induction false} JoinLength(st: seq<string>)
    ensures |Join(TrimAll(st))| <= |Join(st)|
    ensures |Join(TrimAll(st))| == |Join(st)| <==> DotFree(st)
  {
    if st != [] {
      var init, c := st[..|st| - 1], st[|st| - 1];
      assert st == init + [c];
      TrimSnoc(init, c);
      JoinSnoc(init, c);
      JoinSnoc(TrimAll(init), TrimDot(c));
      JoinLength(init);
      assert DotFree(st) <==> DotFree(init) && TrimDot(c) == c;
    }
  }

  // The code does what is documented exactly when no component that remains
  // ends in a dot.
  lemma DocumentedExactly(s: Path)
    ensures Unify(s) == Documented(s) <==>
      match Fold([], Split(s)) case Fails => true case Holds(st) => Leading(s) || DotFree(st)
  {
    match Fold([], Split(s)) {
      case Fails =>
      case Holds(st) =>
        JoinLength(st);
        if DotFree(st) { assert TrimAll(st) == st; }
    }
  }

  ghost predicate NoDots(cs: seq<string>) {
    forall i :: 0 <= i < |cs| && cs[i] != "." && cs[i] != ".." ==> TrimDot(cs[i]) == cs[i]
  }

  lemma {:induction false} FoldDotFree(st: seq<string>, cs: seq<string>)
    requires DotFree(st) && NoDots(cs) && Fold(st, cs).Holds?
    ensures DotFree(Fold(st, cs).comps)
    decreases |cs|
  {
    if cs != [] {
      if cs[0] == "." || (cs[0] == "" && |cs| == 1) {
        FoldDotFree(st, cs[1..]);
      } else if cs[0] == ".." || cs[0] == "" {
        FoldDotFree(st[..|st| - 1], cs[1..]);
      } else {
        FoldDotFree(st + [cs[0]], cs[1..]);
      }
    }
  }

  // In particular when no component of the path but "." and ".." ends in a dot.
  lemma UndottedPath(s: Path)
    requires NoDots(Split(s))
    ensures Unify(s) == Documented(s)
  {
    DocumentedExactly(s);
    if Fold([], Split(s)).Holds? {
      FoldDotFree([], Split(s));
    }
  }

  // A path is refused exactly when a component is dropped that is not there.
  lemma RefusedExactly(s: Path)
    ensures Unify(s).Unified? <==> Fold([], Split(s)).Holds?
  {
  }

  lemma {:induction false} SplitWord(c: string, tail: string)
    requires '/' !in c
    ensures Split(c + tail) == [c + Split(tail)[0]] + Split(tail)[1..]
  {
    if c == "" {
      assert c + tail == tail && c + Split(tail)[0] == Split(tail)[0];
      assert Split(tail) == [Split(tail)[0]] + Split(tail)[1..];
    } else {
      assert (c + tail)[1..] == c[1..] + tail;
      SplitWord(c[1..], tail);
      assert c + Split(tail)[0] == [c[0]] + (c[1..] + Split(tail)[0]);
    }
  }

  // A complete word before the end, or before a separator
  lemma SplitWords(c: string, tail: string)
    requires '/' !in c && (tail == "" || tail[0] == '/')
    ensures Split(c + tail) == [c] + if tail == "" then [] else Split(tail[1..])
  {
    SplitWord(c, tail);
    assert c + "" == c;
  }

  // Joined components are found again.
  lemma {:induction false} SplitJoin(ts: seq<string>, tail: string)
    requires Clean(ts) && ts != [] && (tail == "" || tail[0] == '/')
    ensures Split(Join(ts) + tail) == ts + if tail == "" then [] else Split(tail[1..])
    decreases |ts|
  {
    hide Split, Join;
    var init, c := ts[..|ts| - 1], ts[|ts| - 1];
    assert ts == init + [c];
    JoinSnoc(init, c);
    SplitWords(c, tail);
    if init != [] {
      var more := "/" + c + tail;
      assert Join(ts) + tail == Join(init) + more;
      assert more[1..] == c + tail;
      SplitJoin(init, more);
    }
  }

  ghost predicate Plain(st: seq<string>) {
    forall i :: 0 <= i < |st| ==> !Special(st[i]) && '/' !in st[i]
  }

  lemma {:induction false} FoldPlain(st: seq<string>, cs: seq<string>)
    requires Plain(st) && (forall i :: 0 <= i < |cs| ==> '/' !in cs[i]) && Fold(st, cs).Holds?
    ensures Plain(Fold(st, cs).comps)
    decreases |cs|
  {
    if cs != [] {
      if cs[0] == "." || (cs[0] == "" && |cs| == 1) {
        FoldPlain(st, cs[1..]);
      } else if cs[0] == ".." || cs[0] == "" {
        FoldPlain(st[..|st| - 1], cs[1..]);
      } else {
        FoldPlain(st + [cs[0]], cs[1..]);
      }
    }
  }

  lemma {:induction false} SplitClean(s: string)
    ensures forall i :: 0 <= i < |Split(s)| ==> '/' !in Split(s)[i]
  {
    if s != [] {
      SplitClean(s[1..]);
    }
  }

  lemma {:induction false} FoldOfPlain(st: seq<string>, cs: seq<string>)
    requires Plain(cs)
    ensures Fold(st, cs) == Holds(st + cs)
    decreases |cs|
  {
    if cs != [] {
      FoldOfPlain(st + [cs[0]], cs[1..]);
      assert st + [cs[0]] + cs[1..] == st + cs;
    } else {
      assert st + cs == st;
    }
  }

  lemma TrimPlain(st: seq<string>)
    requires Plain(st)
    ensures Clean(TrimAll(st)) && (Plain(TrimAll(st)) <==> "..." !in st)
    ensures st != [] ==> (TrimAll(st)[0] == ".." <==> st[0] == "...")
  {
    var ts := TrimAll(st);
    forall i | 0 <= i < |st| ensures ts[i] != "" && ts[i] != "." && '/' !in ts[i] && (ts[i] == ".." <==> st[i] == "...") {
      var c := st[i];
      assert ts[i] == TrimDot(c);
      if c[|c| - 1] == '.' { assert c == TrimDot(c) + "."; }
    }
    if i :| 0 <= i < |st| && st[i] == "..." { assert Special(ts[i]); }
  }

  // The components of a result are those that remain, without their last dots.
  // None of them is ".", "" or has a separator, and there is no ".." among them
  // exactly if no "..." remains.
  lemma NormalForm(s: Path)
    requires Unify(s).Unified?
    ensures var p, st := Unify(s).path, Fold([], Split(s)).comps;
      && Plain(st) && (if st == [] then p == "" else Split(p) == TrimAll(st))
      && Clean(TrimAll(st)) && (Plain(TrimAll(st)) <==> "..." !in st)
      && (p == "" || p[0] != '/')
  {
    hide Fold, Split, Join, TrimAll;
    var st := Fold([], Split(s)).comps;
    SplitClean(s);
    FoldPlain([], Split(s));
    TrimPlain(st);
    JoinEmpty(TrimAll(st));
    if st != [] {
      assert Join(TrimAll(st)) + "" == Join(TrimAll(st));
      SplitJoin(TrimAll(st), "");
    }
  }

  // The check at the end of fn_PathUnify (src/fn.c:505-513) looks for a leading
  // ".." at the end of the input, where it never is. A result that the function
  // would refuse because of it comes about exactly if "..." is the first
  // component that remains.
  lemma LeadingParentExactly(s: Path)
    requires Unify(s).Unified?
    ensures Unify(Unify(s).path) == ObjectNotFound <==>
      Fold([], Split(s)).comps != [] && Fold([], Split(s)).comps[0] == "..."
  {
    var st := Fold([], Split(s)).comps;
    NormalForm(s);
    TrimPlain(st);
    SplitNothing();
  }

  lemma ParentSlipsThrough()
    ensures Unify("...") == Unified("..") && Unify("..") == ObjectNotFound
  {
  }

  // A fold of as many components as it is given drops none.
  lemma {:induction false} FoldShrinks(st: seq<string>, cs: seq<string>)
    requires Fold(st, cs).Holds?
    ensures |Fold(st, cs).comps| <= |st| + |cs|
    ensures ".." in cs ==> |Fold(st, cs).comps| < |st| + |cs|
    decreases |cs|
  {
    if cs != [] {
      if cs[0] == "." || (cs[0] == "" && |cs| == 1) {
        FoldShrinks(st, cs[1..]);
      } else if cs[0] == ".." || cs[0] == "" {
        FoldShrinks(st[..|st| - 1], cs[1..]);
      } else {
        FoldShrinks(st + [cs[0]], cs[1..]);
      }
    }
  }

  // Equal texts of components are equal components.
  lemma JoinInjective(ts: seq<string>, us: seq<string>)
    requires Clean(ts) && Clean(us) && Join(ts) == Join(us)
    ensures ts == us
  {
    hide Split, Join;
    JoinEmpty(ts);
    JoinEmpty(us);
    if ts != [] && us != [] {
      assert Join(ts) + "" == Join(ts);
      SplitJoin(ts, "");
      SplitJoin(us, "");
      assert ts + [] == ts && us + [] == us;
    }
  }

  // Normalising a result once more changes nothing exactly if no component that
  // remains ends in two dots.
  lemma FixedPointExactly(s: Path)
    requires Unify(s).Unified?
    ensures Unify(Unify(s).path) == Unified(Unify(s).path) <==>
      forall c :: c in Fold([], Split(s)).comps ==> TrimDot(TrimDot(c)) == TrimDot(c)
  {
    hide Fold, Split, Join, TrimAll;
    var p, st := Unify(s).path, Fold([], Split(s)).comps;
    var ts := TrimAll(st);
    NormalForm(s);
    TwoDots(st);
    SplitNothing();
    if st != [] && "..." !in st {
      FoldOfPlain([], ts);
      assert [] + ts == ts;
      JoinLength(ts);
      TrimPlain(ts);
      if DotFree(ts) { TrimNothing(ts); }
    } else if st != [] {
      assert TrimDot("...") == ".." && TrimDot("..") == ".";
      ParentIn(st);
      if Fold([], ts).Holds? {
        FoldShrinks([], ts);
        SplitClean(p);
        FoldPlain([], ts);
        TrimPlain(Fold([], ts).comps);
        if Join(TrimAll(Fold([], ts).comps)) == Join(ts) { JoinInjective(TrimAll(Fold([], ts).comps), ts); }
      }
    }
  }

  lemma TwoDots(st: seq<string>)
    ensures DotFree(TrimAll(st)) <==> forall c :: c in st ==> TrimDot(TrimDot(c)) == TrimDot(c)
  {
    var ts := TrimAll(st);
    if DotFree(ts) {
      forall c | c in st ensures TrimDot(TrimDot(c)) == TrimDot(c) {
        var i :| 0 <= i < |st| && st[i] == c;
        assert ts[i] == TrimDot(c);
      }
    }
  }

  lemma ParentIn(st: seq<string>)
    requires "..." in st
    ensures ".." in TrimAll(st)
  {
    var i :| 0 <= i < |st| && st[i] == "...";
    assert TrimAll(st)[i] == "..";
  }

  lemma TrimNothing(st: seq<string>)
    requires DotFree(st)
    ensures TrimAll(st) == st
  {
  }

  lemma SplitNothing()
    ensures Split("") == [""] && Unify("") == Unified("")
  {
  }

  // ---- fn_AM2UN -------------------------------------------------------------------------

  // ".." goes between two neighbouring "/".
  function Expand(s: string): string {
    if s == [] then ""
    else [s[0]] + (if s[0] == '/' && At(s, 1) == '/' then ".." else "") + Expand(s[1..])
  }

  lemma ExpandStep(s: Path, i: nat)
    requires i < |s|
    ensures Expand(s[i..]) == [s[i]] + (if s[i] == '/' && At(s, i + 1) == '/' then ".." else "") + Expand(s[i + 1..])
  {
  }

  // The first pass counts what the second one writes; the bounds of d show that
  // the text and its NUL fit.
  method AM2UN(s: Path) returns (r: string)
    ensures r == Expand(s)
  {
    hide Expand;
    var ecnt, i := 0, 0;
    assert s[0..] == s && s[|s|..] == "";
    while i < |s|
      invariant 0 <= i <= |s|
      invariant |Expand(s)| == i + ecnt + |Expand(s[i..])|
    {
      ExpandStep(s, i);
      if s[i] == '/' && At(s, i + 1) == '/' {
        ecnt := ecnt + 2;
      }
      i := i + 1;
    }
    ExpandNothing();
    var d := new char[|s| + 1 + ecnt];
    var k := 0;
    i := 0;
    while i < |s|
      invariant 0 <= i <= |s| && 0 <= k < d.Length
      invariant d[..k] + Expand(s[i..]) == Expand(s)
    {
      ExpandStep(s, i);
      k := PutExpanded(d, k, s[i], At(s, i + 1));
      i := i + 1;
    }
    return d[..k];
  }

  lemma ExpandNothing()
    ensures Expand("") == ""
  {
  }

  method PutExpanded(d: array<char>, k: nat, c: char, next: char) returns (k': nat)
    requires k + (if c == '/' && next == '/' then 3 else 1) < d.Length
    modifies d
    ensures k' == k + (if c == '/' && next == '/' then 3 else 1)
    ensures d[..k'] == old(d[..k]) + [c] + if c == '/' && next == '/' then ".." else ""
  {
    d[k] := c;
    k' := k + 1;
    if c == '/' && next == '/' {
      d[k'], d[k' + 1] := '.', '.';
      k' := k' + 2;
    }
  }

  // Every empty component but the last becomes "..".
  function Dots(cs: seq<string>): (r: seq<string>)
    ensures |r| == |cs|
  {
    if |cs| <= 1 then cs else [if cs[0] == "" then ".." else cs[0]] + Dots(cs[1..])
  }

  lemma {:induction false} ExpandDots(s: Path)
    ensures Split(Expand(s)) == [Split(s)[0]] + Dots(Split(s)[1..])
    decreases |s|
  {
    if s != "" {
      var e := Expand(s[1..]);
      var h, t := Split(s[1..])[0], Split(s[1..])[1..];
      ExpandDots(s[1..]);
      assert [h] + t == Split(s[1..]) && ([h] + t)[1..] == t;
      if s[0] == '/' {
        SplitFirst(s[1..]);
        if At(s, 1) == '/' {
          assert Expand(s)[1..] == ".." + e;
          SplitWord("..", e);
          assert h == "" && ".." + h == "..";
          assert Split(".." + e) == [".."] + Dots(t);
        } else {
          assert Expand(s)[1..] == e;
        }
        assert Split(Expand(s)) == [""] + Dots([h] + t);
      } else {
        assert Expand(s)[1..] == e;
      }
    }
  }

  lemma {:induction false} FoldDots(st: seq<string>, cs: seq<string>)
    ensures Fold(st, Dots(cs)) == Fold(st, cs)
    decreases |cs|
  {
    if |cs| > 1 {
      var c := if cs[0] == "" then ".." else cs[0];
      assert Dots(cs) == [c] + Dots(cs[1..]) && cs == [cs[0]] + cs[1..];
      FoldCons(st, c, Dots(cs[1..]));
      FoldCons(st, cs[0], cs[1..]);
      if c == ".." {
        if st != [] { FoldDots(st[..|st| - 1], cs[1..]); }
      } else {
        FoldDots(if c == "." then st else st + [c], cs[1..]);
      }
    }
  }

  // The translation preserves the meaning of every path: the same result, and
  // the same error for the same inputs.
  lemma TranslationPreserves(s: Path)
    ensures Unify(Expand(s)) == Unify(s)
  {
    ExpandDots(s);
    var h, t := Split(s)[0], Split(s)[1..];
    assert Split(s) == [h] + t;
    FoldCons([], h, Dots(t));
    FoldCons([], h, t);
    FoldDots([], t);
    FoldDots([h], t);
    assert [] + [h] == [h];
    assert s == "" <==> Expand(s) == "";
  }

  // How a Unix server reads a path: "." and empty components mean nothing.
  ghost function UnixFold(st: seq<string>, cs: seq<string>): Stack
    decreases |cs|
  {
    if cs == [] then Holds(st)
    else if cs[0] == "." || cs[0] == "" then UnixFold(st, cs[1..])
    else if cs[0] == ".." then if st == [] then Fails else UnixFold(st[..|st| - 1], cs[1..])
    else UnixFold(st + [cs[0]], cs[1..])
  }

  lemma {:induction false} UnixFoldDots(st: seq<string>, cs: seq<string>)
    ensures UnixFold(st, Dots(cs)) == Fold(st, cs)
    decreases |cs|
  {
    if cs != [] {
      assert |cs| > 1 ==> Dots(cs)[1..] == Dots(cs[1..]);
      if cs[0] == "" && |cs| > 1 {
        if st != [] { UnixFoldDots(st[..|st| - 1], cs[1..]); }
      } else if cs[0] == "." || cs[0] == "" {
        UnixFoldDots(st, cs[1..]);
      } else if cs[0] == ".." {
        if st != [] { UnixFoldDots(st[..|st| - 1], cs[1..]); }
      } else {
        UnixFoldDots(st + [cs[0]], cs[1..]);
      }
    }
  }

  // What the translation is for: a Unix server takes the translated path for what
  // the path means on the Amiga.
  lemma UnixReads(s: Path)
    requires At(s, 0) != '/'
    ensures UnixFold([], Split(Expand(s))) == Fold([], Split(s))
  {
    ExpandDots(s);
    SplitFirst(s);
    var h, t := Split(s)[0], Split(s)[1..];
    assert Split(s) == [h] + t && ([h] + Dots(t))[1..] == Dots(t);
    if h == "" {
      assert t == [] && Dots(t) == [];
    } else if h == "." {
      UnixFoldDots([], t);
    } else if h != ".." {
      UnixFoldDots([] + [h], t);
    }
  }

  // It changes nothing but "//", of which none is left.
  lemma {:induction false} ExpandExactly(s: Path)
    ensures !Doubled(Expand(s), |Expand(s)|)
    ensures !Doubled(s, |s|) ==> Expand(s) == s
    decreases |s|
  {
    if s != "" {
      ExpandExactly(s[1..]);
      var e, x := Expand(s[1..]), Expand(s);
      assert s[1..] != "" ==> e != "" && e[0] == s[1];
      assert s == [s[0]] + s[1..];
      assert Doubled(s[1..], |s| - 1) ==> Doubled(s, |s|) by {
        if j :| 0 < j < |s| - 1 && s[1..][j - 1] == '/' && s[1..][j] == '/' { assert s[j] == '/' && s[j + 1] == '/'; }
      }
      var m := |x| - |e|;
      assert forall j :: m <= j < |x| ==> x[j] == e[j - m];
      forall j | 0 < j < |x| ensures x[j - 1] != '/' || x[j] != '/' {
        if j > m { assert e[j - m - 1] != '/' || e[j - m] != '/'; }
      }
      if s[0] == '/' && At(s, 1) == '/' { assert s[0] == '/' && s[1] == '/'; }
    }
  }

  // Where code and documentation differ: a word with a dot at its end.
  lemma DotIsLost(c: Path)
    requires '/' !in c && c != "" && c != "."
    ensures Unify(c + ".") == Unified(c) && Documented(c + ".") == Unified(c + ".")
  {
    var w := c + ".";
    SplitWord(w, "");
    assert w + "" == w && Split("") == [""];
    FoldCons([], w, []);
    assert [w] + [] == [w] && [] + [w] == [w];
    assert TrimAll([w]) == [c];
  }
}
