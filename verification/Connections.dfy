/**
  * Connection counting: the accept loop's check, push and count are separate steps, and
  * sessions leave at any point in between.
  */
module Connections {
  import opened ByteStrings
  import opened TopicIndex

  const MAX_CONNECTIONS: nat := 1000

  /** Where the accept loop stands. */
  datatype Acceptor = Idle | Checked | Pushed(x: Session)

  /** Listed sessions, those whose thread runs, and the atomic counter. */
  datatype Net = Net(acceptor: Acceptor, sessions: seq<Session>, running: set<Session>, active: nat)

  datatype Move = Check | Push(x: Session) | Count | Exit(x: Session)

  const EMPTY := Net(Idle, [], {}, 0)

  function Without(xs: seq<Session>, x: Session): seq<Session> {
    if xs == [] then [] else (if xs[0] == x then [] else [xs[0]]) + Without(xs[1..], x)
  }

  /** Unsigned decrement. */
  function Dec64(n: nat): nat { if n == 0 then U64 - 1 else n - 1 }

  function Moved(s: Net, m: Move): Net {
    match m
    case Check => if s.active >= MAX_CONNECTIONS then s else s.(acceptor := Checked)
    case Push(x) => s.(acceptor := Pushed(x), sessions := s.sessions + [x])
    case Count =>
      if s.acceptor.Pushed? then Net(Idle, s.sessions, s.running + {s.acceptor.x}, Add64(s.active, 1)) else s
    case Exit(x) => s.(sessions := Without(s.sessions, x), running := s.running - {x}, active := Dec64(s.active))
  }

  /** The loop runs its steps in order on new sessions; a session leaves once, after its thread started. */
  predicate Possible(s: Net, m: Move) {
    match m
    case Check => s.acceptor.Idle?
    case Push(x) => s.acceptor.Checked? && x !in s.sessions
    case Count => s.acceptor.Pushed?
    case Exit(x) => x in s.running
  }

  function After(ms: seq<Move>): Net {
    if ms == [] then EMPTY else Moved(After(ms[..|ms| - 1]), ms[|ms| - 1])
  }

  ghost predicate PossibleRun(ms: seq<Move>) {
    ms == [] || (PossibleRun(ms[..|ms| - 1]) && Possible(After(ms[..|ms| - 1]), ms[|ms| - 1]))
  }

  function BeingAccepted(s: Net): set<Session> {
    if s.acceptor.Pushed? then {s.acceptor.x} else {}
  }

  ghost predicate Distinct(xs: seq<Session>) {
    forall i, j :: 0 <= i < j < |xs| ==> xs[i] != xs[j]
  }

  /** Listed are the running sessions and the one being accepted; the counter counts the running ones. */
  ghost predicate Counted(s: Net) {
    && Distinct(s.sessions)
    && (forall x :: x in s.sessions <==> x in s.running + BeingAccepted(s))
    && s.running !! BeingAccepted(s)
    && s.active == |s.running|
    && |s.sessions| == s.active + |BeingAccepted(s)|
    && (if s.acceptor.Idle? then s.active <= MAX_CONNECTIONS else s.active < MAX_CONNECTIONS)
  }

  lemma {:induction false} WithoutSpec(xs: seq<Session>, x: Session)
    ensures forall y :: y in Without(xs, x) <==> y in xs && y != x
    ensures Distinct(xs) ==> Distinct(Without(xs, x)) && |Without(xs, x)| == |xs| - (if x in xs then 1 else 0)
    decreases |xs|
  {
    if xs != [] {
      WithoutSpec(xs[1..], x);
      assert xs == [xs[0]] + xs[1..];
      if Distinct(xs) {
        assert xs[0] !in xs[1..];
        assert Distinct(xs[1..]);
      }
    }
  }

  lemma PushCounted(s: Net, x: Session)
    requires Counted(s) && Possible(s, Push(x))
    ensures Counted(Moved(s, Push(x)))
  {
    assert BeingAccepted(s) == {};
  }

  lemma CountCounted(s: Net)
    requires Counted(s) && Possible(s, Count)
    ensures Counted(Moved(s, Count))
  {
    assert s.running + {s.acceptor.x} == s.running + BeingAccepted(s);
    assert |s.running + {s.acceptor.x}| == |s.running| + 1;
  }

  lemma ExitCounted(s: Net, x: Session)
    requires Counted(s) && Possible(s, Exit(x))
    ensures Counted(Moved(s, Exit(x)))
  {
    hide Without, Distinct;
    WithoutSpec(s.sessions, x);
    assert x in s.sessions;
    assert |s.running - {x}| == |s.running| - 1;
  }

  lemma MovedCounted(s: Net, m: Move)
    requires Counted(s) && Possible(s, m)
    ensures Counted(Moved(s, m))
  {
    match m
    case Check =>
    case Push(x) => PushCounted(s, x);
    case Count => CountCounted(s);
    case Exit(x) => ExitCounted(s, x);
  }

  /**
    * In every interleaving, at most 1000 sessions are listed and counted, the counter never
    * goes below zero, and the two differ by at most the one session being accepted.
    */
  lemma {:induction false} NeverOverLimit(ms: seq<Move>)
    requires PossibleRun(ms)
    ensures Counted(After(ms))
    ensures |After(ms).sessions| <= 1000 && After(ms).active <= 1000
    ensures After(ms).active <= |After(ms).sessions| <= After(ms).active + 1
    decreases |ms|
  {
    hide Moved, Possible;
    if ms != [] {
      NeverOverLimit(ms[..|ms| - 1]);
      MovedCounted(After(ms[..|ms| - 1]), ms[|ms| - 1]);
    }
  }

  lemma AfterSnoc(ms: seq<Move>, m: Move)
    ensures After(ms + [m]) == Moved(After(ms), m)
  {
    assert (ms + [m])[..|ms|] == ms;
  }

  /** In every interleaving, a connection is accepted if and only if fewer than 1000 sessions run when it is checked. */
  lemma AcceptedIff(ms: seq<Move>)
    requires PossibleRun(ms) && After(ms).acceptor.Idle?
    ensures var n, n' := After(ms), After(ms + [Check]);
            && (n'.acceptor.Checked? <==> |n.running| < 1000)
            && n'.running == n.running && n'.sessions == n.sessions && n'.active == n.active
  {
    NeverOverLimit(ms);
    AfterSnoc(ms, Check);
  }

  /** Accepting it lists, runs and counts that session. */
  lemma AcceptedRuns(ms: seq<Move>, x: Session)
    requires PossibleRun(ms) && Possible(After(ms), Push(x))
    ensures var n, n' := After(ms), After(ms + [Push(x)] + [Count]);
            && n'.running == n.running + {x} && n'.sessions == n.sessions + [x]
            && n'.active == n.active + 1 == |n'.running| && n'.acceptor.Idle?
  {
    NeverOverLimit(ms);
    PushCounted(After(ms), x);
    CountCounted(Moved(After(ms), Push(x)));
    AfterSnoc(ms, Push(x));
    AfterSnoc(ms + [Push(x)], Count);
  }

  /** A session that leaves makes room for one. */
  lemma ExitFreesOne(ms: seq<Move>, x: Session)
    requires PossibleRun(ms) && Possible(After(ms), Exit(x))
    ensures var n, n' := After(ms), After(ms + [Exit(x)]);
            && n'.running == n.running - {x} && x !in n'.sessions
            && |n'.sessions| == |n.sessions| - 1 && n'.active == n.active - 1 == |n'.running|
  {
    hide Without;
    NeverOverLimit(ms);
    ExitCounted(After(ms), x);
    WithoutSpec(After(ms).sessions, x);
    AfterSnoc(ms, Exit(x));
  }
}
