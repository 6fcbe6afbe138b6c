/** Text normalisation used by the trigram model before counting:
    lower-casing, collapsing whitespace runs, trimming, splitting on
    whitespace, and joining words back with single spaces. */
module Text {

  /** The characters Python's str.isspace accepts; a `\s` in a str regular
      expression matches the same set. */
  predicate IsSpace(c: char) {
    || c == ' '
    || ('\t' <= c <= '\r')
    || ('\U{1C}' <= c <= '\U{1F}')
    || c == '\U{85}' || c == '\U{A0}' || c == '\U{1680}'
    || ('\U{2000}' <= c <= '\U{200A}')
    || c == '\U{2028}' || c == '\U{2029}' || c == '\U{202F}' || c == '\U{205F}'
    || c == '\U{3000}'
  }

  predicate AllSpace(s: string) {
    forall i :: 0 <= i < |s| ==> IsSpace(s[i])
  }

  /** A token as str.split() produces it: non-empty, no whitespace inside. */
  predicate IsWord(w: string) {
    |w| > 0 && forall i :: 0 <= i < |w| ==> !IsSpace(w[i])
  }

  predicate IsUpper(c: char) {
    'A' <= c <= 'Z'
  }

  /** Lower-casing of one character (ASCII letters only). */
  function LowerChar(c: char): (d: char)
    ensures IsSpace(d) == IsSpace(c)
    ensures !IsUpper(d)
    ensures !IsUpper(c) ==> d == c
    ensures IsUpper(c) ==> d == "abcdefghijklmnopqrstuvwxyz"[c as int - 'A' as int]
  {
    if IsUpper(c) then (c as int + 32) as char else c
  }

  predicate IsLowered(s: string) {
    forall i :: 0 <= i < |s| ==> !IsUpper(s[i])
  }

  /** str.lower */
  function Lower(s: string): (r: string)
    ensures |r| == |s|
  {
    seq(|s|, i requires 0 <= i < |s| => LowerChar(s[i]))
  }

  /** No two whitespace characters are adjacent. */
  predicate NoSpaceRun(s: string) {
    forall i :: 0 <= i < |s| - 1 ==> !SpacePair(s, i)
  }

  /** Positions i and i + 1 both hold whitespace. */
  predicate SpacePair(s: string, i: int)
    requires 0 <= i < |s| - 1
  {
    IsSpace(s[i]) && IsSpace(s[i + 1])
  }

  /** The only whitespace character present is the plain space. */
  predicate SpacesArePlain(s: string) {
    forall i :: 0 <= i < |s| ==> IsSpace(s[i]) ==> s[i] == ' '
  }

  predicate Trimmed(s: string) {
    s == [] || (!IsSpace(s[0]) && !IsSpace(s[|s| - 1]))
  }

  /** Whitespace as the cleaner leaves it: single plain spaces between
      non-space characters, none at either end. */
  predicate NormalSpacing(s: string) {
    NoSpaceRun(s) && SpacesArePlain(s) && Trimmed(s)
  }

  predicate IsClean(s: string) {
    IsLowered(s) && NormalSpacing(s)
  }

  /** re.sub(r'\s+', ' ', s): every maximal run of whitespace becomes one
      plain space. A whitespace character produces the space only when it
      ends its run. */
  function Collapse(s: string): (r: string)
    ensures |r| <= |s|
    ensures (r == []) == (s == [])
    ensures s != [] ==> IsSpace(r[0]) == IsSpace(s[0])
    ensures s != [] ==> IsSpace(r[|r| - 1]) == IsSpace(s[|s| - 1])
    ensures NoSpaceRun(r) && SpacesArePlain(r)
    ensures IsLowered(s) ==> IsLowered(r)
    ensures AllSpace(r) == AllSpace(s)
  {
    if s == [] then []
    else
      var rest := Collapse(s[1..]);
      GlueSpacing(s, rest);
      GlueEnds(s, rest);
      Glue(s, rest)
  }

  /** One step of Collapse: the first character of `s` in front of the
      collapsed rest `rest`. */
  function Glue(s: string, rest: string): string
    requires s != []
  {
    if IsSpace(s[0]) then
      if |s| > 1 && IsSpace(s[1]) then rest else [' '] + rest
    else [s[0]] + rest
  }

  lemma GlueSpacing(s: string, rest: string)
    requires s != []
    requires (rest == []) == (|s| == 1)
    requires |s| > 1 ==> IsSpace(rest[0]) == IsSpace(s[1])
    requires NoSpaceRun(rest) && SpacesArePlain(rest)
    requires IsLowered(s[1..]) ==> IsLowered(rest)
    requires AllSpace(rest) == AllSpace(s[1..])
    ensures var r := Glue(s, rest);
      && NoSpaceRun(r) && SpacesArePlain(r)
      && (IsLowered(s) ==> IsLowered(r))
      && AllSpace(r) == AllSpace(s)
  {
    AllSpaceCons(s[0], s[1..]);
    assert [s[0]] + s[1..] == s;
    AllSpaceCons(' ', rest);
    AllSpaceCons(s[0], rest);
    NoSpaceRunCons(' ', rest);
    NoSpaceRunCons(s[0], rest);
  }

  lemma GlueEnds(s: string, rest: string)
    requires s != []
    requires |rest| < |s| && (rest == []) == (|s| == 1)
    requires |s| > 1 ==> IsSpace(rest[0]) == IsSpace(s[1]) && IsSpace(rest[|rest| - 1]) == IsSpace(s[|s| - 1])
    ensures var r := Glue(s, rest);
      && |r| <= |s| && r != []
      && IsSpace(r[0]) == IsSpace(s[0])
      && IsSpace(r[|r| - 1]) == IsSpace(s[|s| - 1])
  {
  }

  /** How many whitespace characters `s` starts with. */
  function LeadingSpaces(s: string): (k: nat)
    ensures k <= |s|
    ensures forall i :: 0 <= i < k ==> IsSpace(s[i])
    ensures k == |s| || !IsSpace(s[k])
  {
    if s == [] || !IsSpace(s[0]) then 0 else 1 + LeadingSpaces(s[1..])
  }

  /** Where the whitespace `s` ends with begins. */
  function TrailingSpaces(s: string): (k: nat)
    ensures k <= |s|
    ensures forall i :: k <= i < |s| ==> IsSpace(s[i])
    ensures k == 0 || !IsSpace(s[k - 1])
  {
    if s == [] || !IsSpace(s[|s| - 1]) then |s| else TrailingSpaces(s[..|s| - 1])
  }

  /** Leading whitespace removed. */
  function TrimStart(s: string): (r: string)
    ensures r == [] || !IsSpace(r[0])
    ensures (r == []) == AllSpace(s)
  {
    s[LeadingSpaces(s)..|s|]
  }

  /** Trailing whitespace removed. */
  function TrimEnd(s: string): (r: string)
    ensures r == [] || !IsSpace(r[|r| - 1])
    ensures (r == []) == AllSpace(s)
  {
    var k := TrailingSpaces(s);
    assert k > 0 ==> !AllSpace(s);
    s[0..k]
  }

  /** str.strip: the input with its leading and trailing whitespace cut off. */
  function Strip(s: string): (r: string)
    ensures Trimmed(r)
    ensures (r == []) == AllSpace(s)
    ensures Keeps(s, r)
    ensures exists i, j :: 0 <= i <= j <= |s| && r == s[i..j] && AllSpace(s[..i]) && AllSpace(s[j..])
  {
    var t := TrimStart(s);
    var r := TrimEnd(t);
    SliceKeeps(s, LeadingSpaces(s), |s|);
    SliceKeeps(t, 0, TrailingSpaces(t));
    assert t != [] ==> !AllSpace(t);
    assert r != [] ==> r[0] == t[0];
    var a, b := LeadingSpaces(s), TrailingSpaces(t);
    TrimmedSlice(s, a, b);
    SpaceSlice(s, 0, a);
    TrailingSlice(s, a, b);
    r
  }

  lemma TrimmedSlice(s: string, a: nat, b: nat)
    requires a == LeadingSpaces(s) && b == TrailingSpaces(TrimStart(s))
    ensures a + b <= |s| && TrimEnd(TrimStart(s)) == s[a..a + b]
  {
    TrimStartSlice(s);
    TrimEndSlice(TrimStart(s));
    SliceOfSlice(s, a, b);
  }

  lemma TrimStartSlice(s: string)
    ensures TrimStart(s) == s[LeadingSpaces(s)..]
  {
  }

  lemma TrimEndSlice(t: string)
    ensures TrimEnd(t) == t[..TrailingSpaces(t)]
  {
  }

  lemma SliceOfSlice(s: string, a: nat, b: nat)
    requires a + b <= |s|
    ensures s[a..][..b] == s[a..a + b]
  {
  }

  lemma TrailingSlice(s: string, a: nat, b: nat)
    requires a == LeadingSpaces(s) && b == TrailingSpaces(TrimStart(s))
    ensures a + b <= |s| && AllSpace(s[a + b..])
  {
    TrimStartSlice(s);
    SpaceSuffix(s[a..], b);
    DropDrop(s, a, b);
  }

  lemma DropDrop(s: string, a: nat, b: nat)
    requires a + b <= |s|
    ensures s[a..][b..] == s[a + b..]
  {
  }

  lemma SpaceSuffix(s: string, i: nat)
    requires i <= |s|
    requires forall k :: i <= k < |s| ==> IsSpace(s[k])
    ensures AllSpace(s[i..])
  {
    var u := s[i..];
    forall k | 0 <= k < |u| ensures IsSpace(u[k]) {
      assert u[k] == s[i + k];
    }
  }

  lemma SpaceSlice(s: string, i: nat, j: nat)
    requires i <= j <= |s|
    requires forall k :: i <= k < j ==> IsSpace(s[k])
    ensures AllSpace(s[i..j])
  {
    var u := s[i..j];
    forall k | 0 <= k < |u| ensures IsSpace(u[k]) {
      assert u[k] == s[i + k];
    }
  }

  /** The whitespace and case properties that carry over from `s` to `r`. */
  predicate Keeps(s: string, r: string) {
    && (NoSpaceRun(s) ==> NoSpaceRun(r))
    && (SpacesArePlain(s) ==> SpacesArePlain(r))
    && (IsLowered(s) ==> IsLowered(r))
  }

  lemma AllSpaceCons(c: char, s: string)
    ensures AllSpace([c] + s) == (IsSpace(c) && AllSpace(s))
  {
    var t := [c] + s;
    assert t[0] == c;
    assert forall i :: 0 <= i < |s| ==> t[i + 1] == s[i];
    if IsSpace(c) && AllSpace(s) {
      forall i | 0 <= i < |t| ensures IsSpace(t[i]) {
        if i > 0 { assert t[i] == s[i - 1]; }
      }
    }
  }

  lemma SliceKeeps(s: string, i: nat, j: nat)
    requires i <= j <= |s|
    ensures Keeps(s, s[i..j])
  {
    var r := s[i..j];
    assert forall k :: 0 <= k < |r| ==> r[k] == s[i + k];
    if NoSpaceRun(s) {
      forall k | 0 <= k < |r| - 1 ensures !SpacePair(r, k) {
        assert !SpacePair(s, i + k);
      }
    }
  }

  /** No whitespace run in c + t: none in t, and c and t's first character
      are not both whitespace. */
  lemma NoSpaceRunCons(c: char, t: string)
    ensures NoSpaceRun([c] + t) == (NoSpaceRun(t) && (t == [] || !(IsSpace(c) && IsSpace(t[0]))))
  {
    var s := [c] + t;
    assert forall k :: 0 <= k < |t| ==> s[k + 1] == t[k];
    if NoSpaceRun(s) {
      forall k | 0 <= k < |t| - 1 ensures !SpacePair(t, k) {
        assert !SpacePair(s, k + 1);
      }
      if t != [] {
        assert !SpacePair(s, 0);
      }
    }
    if NoSpaceRun(t) && (t == [] || !(IsSpace(c) && IsSpace(t[0]))) {
      forall k | 0 <= k < |s| - 1 ensures !SpacePair(s, k) {
        if k > 0 {
          assert !SpacePair(t, k - 1);
        }
      }
    }
  }

  /** The cleaning step: lower-case, collapse whitespace runs, strip. */
  function Clean(s: string): (r: string)
    ensures IsClean(r)
    ensures (r == []) == AllSpace(s)
  {
    var l := Lower(s);
    assert AllSpace(l) == AllSpace(s) by {
      assert forall i :: 0 <= i < |s| ==> IsSpace(l[i]) == IsSpace(s[i]);
    }
    assert IsLowered(l);
    var c := Collapse(l);
    assert IsLowered(c) && NoSpaceRun(c) && SpacesArePlain(c);
    Strip(c)
  }

  /** The longest prefix of `s` that holds no whitespace. */
  function TakeWord(s: string): (w: string)
    ensures |w| <= |s| && w == s[..|w|]
    ensures forall i :: 0 <= i < |w| ==> !IsSpace(w[i])
    ensures |w| == |s| || IsSpace(s[|w|])
  {
    if s == [] || IsSpace(s[0]) then [] else [s[0]] + TakeWord(s[1..])
  }

  /** str.split() without arguments: the maximal whitespace-free pieces. */
  function Split(s: string): (ws: seq<string>)
    ensures forall i :: 0 <= i < |ws| ==> IsWord(ws[i])
    ensures (ws == []) == AllSpace(s)
    decreases |s|
  {
    if s == [] then []
    else if IsSpace(s[0]) then Split(s[1..])
    else
      var w := TakeWord(s);
      assert |w| > 0;
      [w] + Split(s[|w|..])
  }

  /** " ".join(ws) */
  function Join(ws: seq<string>): string {
    if ws == [] then ""
    else if |ws| == 1 then ws[0]
    else ws[0] + " " + Join(ws[1..])
  }

  lemma {:induction false} CollapseKeepsNormal(s: string)
    requires NoSpaceRun(s) && SpacesArePlain(s)
    ensures Collapse(s) == s
    decreases |s|
  {
    if s != [] {
      assert [s[0]] + s[1..] == s;
      NoSpaceRunCons(s[0], s[1..]);
      assert SpacesArePlain(s[1..]);
      CollapseKeepsNormal(s[1..]);
    }
  }

  /** A cleaned string is a fixed point of cleaning. */
  lemma CleanKeepsClean(t: string)
    requires IsClean(t)
    ensures Clean(t) == t
  {
    var l := Lower(t);
    assert forall i :: 0 <= i < |t| ==> l[i] == t[i];
    assert l == t;
    CollapseKeepsNormal(t);
    assert TrimStart(t) == t;
    assert TrimEnd(t) == t;
  }

  /** Cleaning is idempotent. */
  lemma CleanIdempotent(s: string)
    ensures Clean(Clean(s)) == Clean(s)
  {
    CleanKeepsClean(Clean(s));
  }

  lemma {:induction false} TakeWordOf(w: string, t: string)
    requires forall i :: 0 <= i < |w| ==> !IsSpace(w[i])
    requires t == [] || IsSpace(t[0])
    ensures TakeWord(w + t) == w
    decreases |w|
  {
    if w != [] {
      assert (w + t)[1..] == w[1..] + t;
      TakeWordOf(w[1..], t);
    }
  }

  /** Splitting the joined words gives the words back. */
  lemma {:induction false} SplitJoin(ws: seq<string>)
    requires forall i :: 0 <= i < |ws| ==> IsWord(ws[i])
    ensures Split(Join(ws)) == ws
  {
    if ws == [] {
    } else if |ws| == 1 {
      TakeWordOf(ws[0], []);
      assert ws[0] + [] == ws[0];
    } else {
      var w, rest := ws[0], Join(ws[1..]);
      var s := w + " " + rest;
      assert s == w + (" " + rest);
      TakeWordOf(w, " " + rest);
      assert s[|w|..] == " " + rest;
      assert (" " + rest)[1..] == rest;
      SplitJoin(ws[1..]);
      assert Split(s) == [w] + ws[1..];
    }
  }

  /** Whitespace in front of a string adds no tokens. */
  lemma {:induction false} SplitLeadingSpace(pre: string, t: string)
    requires AllSpace(pre)
    ensures Split(pre + t) == Split(t)
    decreases |pre|
  {
    if pre != [] {
      assert (pre + t)[0] == pre[0];
      assert (pre + t)[1..] == pre[1..] + t;
      assert AllSpace(pre[1..]) by {
        forall k | 0 <= k < |pre| - 1 ensures IsSpace(pre[1..][k]) {
          assert pre[1..][k] == pre[k + 1];
        }
      }
      SplitLeadingSpace(pre[1..], t);
      assert Split(pre + t) == Split(pre[1..] + t);
    } else {
      assert pre + t == t;
    }
  }

  /** Whitespace behind a string adds no tokens. */
  lemma {:induction false} SplitTrailingSpace(t: string, post: string)
    requires AllSpace(post)
    ensures Split(t + post) == Split(t)
    decreases |t|
  {
    if t == [] {
      assert t + post == post;
    } else if IsSpace(t[0]) {
      assert (t + post)[1..] == t[1..] + post;
      SplitTrailingSpace(t[1..], post);
    } else {
      var w := TakeWord(t);
      var rest := t[|w|..];
      assert t == w + rest;
      assert t + post == w + (rest + post);
      TakeWordOf(w, rest + post);
      assert (t + post)[|w|..] == rest + post;
      SplitTrailingSpace(rest, post);
    }
  }

  /** Stripping keeps the tokens. */
  lemma SplitStrip(s: string)
    ensures Split(Strip(s)) == Split(s)
  {
    var i, j :| 0 <= i <= j <= |s| && Strip(s) == s[i..j] && AllSpace(s[..i]) && AllSpace(s[j..]);
    SplitSlice(s, i, j);
  }

  lemma SplitSlice(s: string, i: nat, j: nat)
    requires i <= j <= |s| && AllSpace(s[..i]) && AllSpace(s[j..])
    ensures Split(s[i..j]) == Split(s)
  {
    var r := s[i..j];
    assert s == s[..i] + (r + s[j..]);
    SplitLeadingSpace(s[..i], r + s[j..]);
    SplitTrailingSpace(r, s[j..]);
  }

  /** The tokens of a non-space character followed by `t`: the character
      starts a token of its own when `t` is empty or starts with whitespace,
      and is glued to the first token of `t` otherwise. */
  lemma SplitConsWord(c: char, t: string)
    requires !IsSpace(c)
    ensures Split([c] + t)
         == if t == [] || IsSpace(t[0]) then [[c]] + Split(t)
            else [[c] + Split(t)[0]] + Split(t)[1..]
  {
    var s := [c] + t;
    assert s[1..] == t;
    var w := TakeWord(t);
    assert TakeWord(s) == [c] + w;
    assert s[|w| + 1..] == t[|w|..];
  }

  /** Collapsing whitespace runs keeps the tokens. */
  lemma {:induction false} SplitCollapse(s: string)
    ensures Split(Collapse(s)) == Split(s)
    decreases |s|
  {
    if s != [] {
      var rest := Collapse(s[1..]);
      SplitCollapse(s[1..]);
      if IsSpace(s[0]) {
        if !(|s| > 1 && IsSpace(s[1])) {
          assert ([' '] + rest)[1..] == rest;
        }
      } else {
        SplitConsWord(s[0], rest);
        SplitConsWord(s[0], s[1..]);
        assert [s[0]] + s[1..] == s;
      }
    }
  }

  /** Cleaning is " ".join(s.lower().split()): the lower-cased tokens of
      the input, in order, joined with single spaces. */
  lemma CleanIsJoinedTokens(s: string)
    ensures Clean(s) == Join(Split(Lower(s)))
  {
    var c := Collapse(Lower(s));
    SplitStrip(c);
    SplitCollapse(Lower(s));
    JoinSplit(Clean(s));
  }

  /** Joining the words of a normally spaced string gives the string back. */
  lemma {:induction false} JoinSplit(t: string)
    requires NormalSpacing(t)
    ensures Join(Split(t)) == t
    decreases |t|
  {
    if t != [] {
      var w := TakeWord(t);
      assert |w| > 0;
      if |w| == |t| {
        assert t[|w|..] == [];
        assert Split(t) == [w];
      } else {
        var rest := t[|w| + 1..];
        WordThenRest(t);
        SplitWordThenRest(t);
        JoinSplit(rest);
        JoinCons(w, Split(rest));
      }
    }
  }

  /** In a normally spaced string a word that does not reach the end is
      followed by one plain space and a normally spaced rest. */
  lemma WordThenRest(t: string)
    requires NormalSpacing(t) && t != [] && |TakeWord(t)| < |t|
    ensures var w := TakeWord(t);
      && |w| > 0 && |w| + 1 < |t| && t[|w|] == ' '
      && !IsSpace(t[|w| + 1]) && NormalSpacing(t[|w| + 1..])
      && t == w + " " + t[|w| + 1..]
  {
    var w := TakeWord(t);
    assert |w| > 0;
    var rest := t[|w| + 1..];
    assert |w| + 1 < |t|;
    assert !SpacePair(t, |w|);
    SliceKeeps(t, |w| + 1, |t|);
    assert t[|w| + 1..|t|] == rest;
    assert rest[|rest| - 1] == t[|t| - 1];
    assert t == t[..|w|] + [t[|w|]] + rest;
  }

  lemma JoinCons(w: string, ws: seq<string>)
    requires ws != []
    ensures Join([w] + ws) == w + " " + Join(ws)
  {
    assert ([w] + ws)[1..] == ws;
  }

  lemma SplitWordThenRest(t: string)
    requires NormalSpacing(t) && t != [] && |TakeWord(t)| < |t|
    ensures var w := TakeWord(t);
      |w| + 1 < |t| && Split(t) == [w] + Split(t[|w| + 1..])
  {
    WordThenRest(t);
    var w := TakeWord(t);
    var rest := t[|w| + 1..];
    assert t[|w|..][1..] == rest;
    assert Split(t[|w|..]) == Split(rest);
  }
}
