/** Actions, and the tokens that address a question inside one. */
module ConfirmTokens {
  import opened Trees
  import opened RowKeys

  datatype Json = JNull | JBool(b: bool) | JNum(text: string) | JStr(text: string) | JOther(text: string)

  /** A text or value source, literal or bound, by its declaration. */
  type Source = string

  datatype Action =
    | Chain(ops: seq<Action>)
    | SetState(key: string, value: Option<Json>, from: Option<Source>)
    | CommitLocal(field: string)
    | Call(endpoint: string)
    | Confirm(prompt: Source, onConfirm: Action, onCancel: Option<Action>)
    | Other(arm: string)

  /** One step into an action: a chain position or a continuation. */
  datatype Segment = Position(n: nat) | OnConfirm | OnCancel

  function SegmentText(s: Segment): string
  {
    match s case Position(n) => Digits(n) case OnConfirm => "onConfirm" case OnCancel => "onCancel"
  }

  function PathText(path: seq<Segment>): string
  {
    if path == [] then ""
    else if |path| == 1 then SegmentText(path[0])
    else SegmentText(path[0]) + ['.'] + PathText(path[1..])
  }

  function ChildPath(path: string, index: nat): string
  {
    if path == "" then Digits(index) else path + ['.'] + Digits(index)
  }

  function BranchPath(path: string, name: string): string
  {
    if path == "" then name else path + ['.'] + name
  }

  function ConfirmToken(nodeId: string, path: string): string
  {
    nodeId + ['#'] + path
  }

  /** The action one step in. */
  function Into(a: Action, s: Segment): Option<Action>
  {
    match s
    case Position(n) => if a.Chain? && n < |a.ops| then Some(a.ops[n]) else None
    case OnConfirm => if a.Confirm? then Some(a.onConfirm) else None
    case OnCancel => if a.Confirm? then a.onCancel else None
  }

  /** The action at a path. */
  function At(a: Action, path: seq<Segment>): Option<Action>
    decreases |path|
  {
    if path == [] then Some(a)
    else
      var next := Into(a, path[0]);
      if next.None? then None else At(next.value, path[1..])
  }

  // ----- reading a token back -----

  /** The pieces between the dots. */
  function Split(s: string): (r: seq<string>)
    ensures |r| > 0
  {
    if s == "" then [""]
    else
      var rest := Split(s[1..]);
      if s[0] == '.' then [""] + rest else [[s[0]] + rest[0]] + rest[1..]
  }

  function DigitsValue(s: string): Option<nat>
  {
    if s == "" then Some(0)
    else
      var n := |s| - 1;
      var front := DigitsValue(s[..n]);
      if front.Some? && '0' <= s[n] <= '9' then Some(10 * front.value + (s[n] as int - '0' as int)) else None
  }

  /** A position, only in its canonical spelling. Reading past a machine index misses the chain as surely
      as the parse overflowing does, so no bound is kept. */
  function CanonicalIndex(s: string): Option<nat>
  {
    var digits := if s != "" && s[0] == '+' then s[1..] else s;
    var n := if digits == "" then None else DigitsValue(digits);
    if n.Some? && Digits(n.value) == s then n else None
  }

  function StepInto(segment: string, at: Action): Option<Action>
  {
    if at.Confirm? && segment == "onConfirm" then Some(at.onConfirm)
    else if at.Confirm? && at.onCancel.Some? && segment == "onCancel" then at.onCancel
    else if at.Chain? then
      var i := CanonicalIndex(segment);
      if i.Some? && i.value < |at.ops| then Some(at.ops[i.value]) else None
    else None
  }

  function Walk(at: Action, segments: seq<string>): Option<Action>
    decreases |segments|
  {
    if segments == [] then Some(at)
    else
      var next := StepInto(segments[0], at);
      if next.None? then None else Walk(next.value, segments[1..])
  }

  predicate Addresses(nodeId: string, token: string) { nodeId + ['#'] <= token }

  /** The confirm a token addresses inside a node's current action, with its path. */
  function AddressedAt(nodeId: string, token: string, action: Action): Option<(string, Action)>
  {
    if !Addresses(nodeId, token) then None
    else
      var path := token[|nodeId| + 1..];
      var found := if path == "" then Some(action) else Walk(action, Split(path));
      if found.Some? && found.value.Confirm? then Some((path, found.value)) else None
  }

  method AddressedConfirm(nodeId: string, token: string, action: Action) returns (r: Option<(string, Action)>)
    ensures r == AddressedAt(nodeId, token, action)
  {
    if !(nodeId + ['#'] <= token) {
      return None;
    }
    var path := token[|nodeId| + 1..];
    var at := action;
    if path != "" {
      var segments := Split(path);
      assert segments[0..] == segments;
      for i := 0 to |segments|
        invariant Walk(at, segments[i..]) == Walk(action, segments)
      {
        assert segments[i..][1..] == segments[i + 1..];
        var next := StepInto(segments[i], at);
        if next.None? {
          return None;
        }
        at := next.value;
      }
      assert segments[|segments|..] == [];
    }
    r := if at.Confirm? then Some((path, at)) else None;
  }

  // ----- the round trip -----

  ghost predicate Free(s: string, c: char)
  {
    forall i :: 0 <= i < |s| ==> s[i] != c
  }

  lemma {:induction false} DigitsRead(n: nat)
    ensures DigitsValue(Digits(n)) == Some(n) && Digits(n) != "" && Digits(n)[0] != '+'
    ensures Free(Digits(n), '.') && Free(Digits(n), '#')
  {
    var d := Digits(n);
    if n < 10 {
      assert d[..0] == "" && d[0] == Digit(n);
    } else {
      DigitsRead(n / 10);
      assert d[..|d| - 1] == Digits(n / 10) && d[|d| - 1] == Digit(n % 10);
      assert d[0] == Digits(n / 10)[0];
    }
  }

  lemma IndexReadsBack(n: nat)
    ensures CanonicalIndex(Digits(n)) == Some(n)
  {
    DigitsRead(n);
  }

  lemma SegmentPlain(s: Segment)
    ensures Free(SegmentText(s), '.') && Free(SegmentText(s), '#') && SegmentText(s) != ""
  {
    if s.Position? { DigitsRead(s.n); }
  }

  lemma {:induction false} SplitWhole(s: string)
    requires Free(s, '.')
    ensures Split(s) == [s]
  {
    if s != "" {
      SplitWhole(s[1..]);
      assert [s[0]] + s[1..] == s;
    }
  }

  lemma {:induction false} SplitFirst(s: string, rest: string)
    requires Free(s, '.')
    ensures Split(s + ['.'] + rest) == [s] + Split(rest)
  {
    var all := s + ['.'] + rest;
    if s == "" {
      assert all[1..] == rest;
    } else {
      SplitFirst(s[1..], rest);
      assert all[1..] == s[1..] + ['.'] + rest;
      assert [s[0]] + s[1..] == s;
    }
  }

  function Texts(path: seq<Segment>): (ts: seq<string>)
    ensures |ts| == |path|
  {
    if path == [] then [] else [SegmentText(path[0])] + Texts(path[1..])
  }

  lemma {:induction false} SplitPath(path: seq<Segment>)
    requires path != []
    ensures Split(PathText(path)) == Texts(path) && PathText(path) != ""
  {
    SegmentPlain(path[0]);
    if |path| == 1 {
      SplitWhole(SegmentText(path[0]));
      assert Texts(path[1..]) == [];
    } else {
      SplitPath(path[1..]);
      SplitFirst(SegmentText(path[0]), PathText(path[1..]));
    }
  }

  lemma StepReadsBack(s: Segment, a: Action)
    requires Into(a, s).Some?
    ensures StepInto(SegmentText(s), a) == Into(a, s)
  {
    match s
    case Position(n) => IndexReadsBack(n);
    case OnConfirm =>
    case OnCancel => assert SegmentText(s)[2] == 'C' && "onConfirm"[3] != SegmentText(s)[3];
  }

  lemma {:induction false} WalkReadsBack(path: seq<Segment>, a: Action)
    requires At(a, path).Some?
    ensures Walk(a, Texts(path)) == At(a, path)
    decreases |path|
  {
    if path != [] {
      StepReadsBack(path[0], a);
      WalkReadsBack(path[1..], Into(a, path[0]).value);
      assert Texts(path)[1..] == Texts(path[1..]);
    }
  }

  /** A question's token addresses exactly the question it was minted for. */
  lemma TokenRoundTrip(nodeId: string, path: seq<Segment>, action: Action)
    requires At(action, path).Some? && At(action, path).value.Confirm?
    ensures AddressedAt(nodeId, ConfirmToken(nodeId, PathText(path)), action)
      == Some((PathText(path), At(action, path).value))
  {
    var token := ConfirmToken(nodeId, PathText(path));
    assert token[|nodeId| + 1..] == PathText(path);
    assert token[..|nodeId| + 1] == nodeId + ['#'];
    if path != [] {
      SplitPath(path);
      WalkReadsBack(path, action);
    }
  }

  function Glue(ts: seq<string>): string
    requires ts != []
  {
    if |ts| == 1 then ts[0] else ts[0] + ['.'] + Glue(ts[1..])
  }

  lemma {:induction false} GlueSplit(s: string)
    ensures Glue(Split(s)) == s
  {
    if s != "" {
      var rest := Split(s[1..]);
      GlueSplit(s[1..]);
      assert [s[0]] + s[1..] == s;
      if s[0] == '.' {
        assert ([""] + rest)[1..] == rest;
      } else {
        assert ([[s[0]] + rest[0]] + rest[1..])[1..] == rest[1..];
        GlueFront(s[0], rest);
      }
    }
  }

  lemma GlueFront(c: char, rest: seq<string>)
    requires rest != []
    ensures Glue([[c] + rest[0]] + rest[1..]) == [c] + Glue(rest)
  {
    var ts := [[c] + rest[0]] + rest[1..];
    assert ts[1..] == rest[1..] && ts[0] == [c] + rest[0];
    if |rest| > 1 { assert ([c] + rest[0]) + ['.'] + Glue(rest[1..]) == [c] + (rest[0] + ['.'] + Glue(rest[1..])); }
  }

  lemma {:induction false} GlueTexts(path: seq<Segment>)
    requires path != []
    ensures Glue(Texts(path)) == PathText(path)
  {
    if |path| > 1 {
      GlueTexts(path[1..]);
      assert Texts(path)[1..] == Texts(path[1..]);
    }
  }

  lemma StepIsInto(segment: string, a: Action) returns (s: Segment)
    requires StepInto(segment, a).Some?
    ensures SegmentText(s) == segment && Into(a, s) == StepInto(segment, a)
  {
    s := if a.Chain? then Position(CanonicalIndex(segment).value)
      else if segment == "onConfirm" then OnConfirm else OnCancel;
  }

  lemma {:induction false} WalkIsAt(segments: seq<string>, a: Action) returns (path: seq<Segment>)
    requires Walk(a, segments).Some?
    ensures Texts(path) == segments && At(a, path) == Walk(a, segments)
    decreases |segments|
  {
    if segments == [] {
      path := [];
    } else {
      var s := StepIsInto(segments[0], a);
      var rest := WalkIsAt(segments[1..], StepInto(segments[0], a).value);
      path := [s] + rest;
      assert path[1..] == rest;
    }
  }

  /** The place in the action of whatever a token addresses. */
  lemma AddressedPlace(nodeId: string, token: string, action: Action) returns (path: seq<Segment>)
    requires AddressedAt(nodeId, token, action).Some?
    ensures At(action, path) == Some(AddressedAt(nodeId, token, action).value.1)
    ensures PathText(path) == AddressedAt(nodeId, token, action).value.0
    ensures token == ConfirmToken(nodeId, PathText(path))
  {
    var text := token[|nodeId| + 1..];
    assert token == nodeId + ['#'] + text;
    if text == "" {
      path := [];
    } else {
      path := WalkIsAt(Split(text), action);
      GlueSplit(text);
      GlueTexts(path);
    }
  }

  /** A token that addresses a confirm in a node's action. */
  ghost predicate Minted(nodeId: string, action: Action, token: string)
  {
    exists path :: At(action, path).Some? && At(action, path).value.Confirm?
      && token == ConfirmToken(nodeId, PathText(path))
  }

  /** Nothing but a token minted for a question of the action addresses anything in it. */
  lemma AddressesOnlyMinted(nodeId: string, token: string, action: Action)
    ensures AddressedAt(nodeId, token, action).Some? <==> Minted(nodeId, action, token)
  {
    if AddressedAt(nodeId, token, action).Some? {
      var path := AddressedPlace(nodeId, token, action);
    }
    if Minted(nodeId, action, token) {
      var path :| At(action, path).Some? && At(action, path).value.Confirm?
        && token == ConfirmToken(nodeId, PathText(path));
      TokenRoundTrip(nodeId, path, action);
    }
  }

  // ----- tokens of other nodes -----

  lemma {:induction false} PathPlain(path: seq<Segment>)
    ensures Free(PathText(path), '#')
  {
    if path != [] {
      SegmentPlain(path[0]);
      if |path| > 1 { PathPlain(path[1..]); }
    }
  }

  lemma MarkedMisses(segment: string, a: Action)
    requires !Free(segment, '#')
    ensures StepInto(segment, a) == None
  {
    var i :| 0 <= i < |segment| && segment[i] == '#';
    var n := CanonicalIndex(segment);
    if n.Some? { DigitsRead(n.value); }
    assert Free("onConfirm", '#') && Free("onCancel", '#');
  }

  /** A mark survives in some piece of the split. */
  lemma {:induction false} MarkSplits(s: string, i: nat) returns (p: nat)
    requires i < |s| && s[i] == '#'
    ensures p < |Split(s)| && !Free(Split(s)[p], '#')
    decreases |s|
  {
    var rest := Split(s[1..]);
    if i == 0 {
      p := 0;
      assert Split(s)[0][0] == '#';
    } else {
      var q := MarkSplits(s[1..], i - 1);
      var k :| 0 <= k < |rest[q]| && rest[q][k] == '#';
      if s[0] == '.' {
        p := q + 1;
      } else {
        p := q;
        if q == 0 { assert Split(s)[0][k + 1] == '#'; }
      }
    }
  }

  lemma {:induction false} MarkedWalkMisses(segments: seq<string>, p: nat, a: Action)
    requires p < |segments| && !Free(segments[p], '#')
    ensures Walk(a, segments) == None
    decreases p
  {
    if p == 0 {
      MarkedMisses(segments[0], a);
    } else {
      var next := StepInto(segments[0], a);
      if next.Some? { MarkedWalkMisses(segments[1..], p - 1, next.value); }
    }
  }

  /** A token minted for one node addresses nothing under another, whatever marks their ids hold. */
  lemma TokenIsItsNodes(owner: string, path: seq<Segment>, other: string, action: Action)
    requires owner != other
    ensures AddressedAt(other, ConfirmToken(owner, PathText(path)), action) == None
  {
    var token := ConfirmToken(owner, PathText(path));
    if Addresses(other, token) {
      PathPlain(path);
      OtherIsShorter(owner, PathText(path), other);
      var rest := token[|other| + 1..];
      var i := |owner| - |other| - 1;
      assert rest[i] == token[|owner|] == '#';
      var p := MarkSplits(rest, i);
      MarkedWalkMisses(Split(rest), p, action);
    }
  }

  lemma OtherIsShorter(owner: string, path: string, other: string)
    requires owner != other && Free(path, '#') && Addresses(other, ConfirmToken(owner, path))
    ensures |other| < |owner|
  {
    var token := ConfirmToken(owner, path);
    assert token[|other|] == (other + ['#'])[|other|] == '#';
    forall j | |owner| < j < |token| ensures token[j] != '#' { assert token[j] == path[j - |owner| - 1]; }
    assert token[..|other|] == (other + ['#'])[..|other|] == other;
    assert token[..|owner|] == owner;
  }
}
