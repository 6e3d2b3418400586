/** The reversible move commands of MoveCommand.cs and the undo history that
    replays them backwards.

    A command moves a player by one unit along an axis of the player's own
    frame (`Transform.Translate` with its default local space) and remembers
    which player it moved, so that `Undo` can move that same player back.
    Positions are integer 3-vectors in that frame, and the scene is a map from
    player to position: a player missing from the map is one that no longer
    exists, which the engine reports as an error. */
module MoveCommands {

  import opened Wrappers

  datatype Vec3 = Vec3(x: int, y: int, z: int)
  {
    function Plus(v: Vec3): Vec3 { Vec3(x + v.x, y + v.y, z + v.z) }

    function Neg(): Vec3 { Vec3(-x, -y, -z) }
  }

  const Zero := Vec3(0, 0, 0)

  lemma PlusAssociative(a: Vec3, b: Vec3, c: Vec3)
    ensures a.Plus(b).Plus(c) == a.Plus(b.Plus(c))
  {
  }

  /** Unity's axis vectors: forward is +z, right is +x. */
  const Forward := Vec3(0, 0, 1)
  const Back := Vec3(0, 0, -1)
  const Left := Vec3(-1, 0, 0)
  const Right := Vec3(1, 0, 0)

  function Abs(n: int): nat { if n < 0 then -n else n }

  /** Length of a vector in the grid metric. */
  function Norm(v: Vec3): nat { Abs(v.x) + Abs(v.y) + Abs(v.z) }

  /** Grid distance between two positions. */
  function Distance(a: Vec3, b: Vec3): nat {
    Abs(a.x - b.x) + Abs(a.y - b.y) + Abs(a.z - b.z)
  }

  /** How many coordinates differ between two positions. */
  function AxesChanged(a: Vec3, b: Vec3): nat {
    (if a.x != b.x then 1 else 0) + (if a.y != b.y then 1 else 0) + (if a.z != b.z then 1 else 0)
  }

  /** Translating by `v` moves a position by exactly `v`'s length, and a
      unit move changes one coordinate only. */
  lemma TranslateDistance(a: Vec3, v: Vec3)
    ensures Distance(a, a.Plus(v)) == Norm(v)
    ensures Norm(v) == 1 ==> AxesChanged(a, a.Plus(v)) == 1
  {
  }

  /** The four concrete commands. */
  datatype Kind = MoveForward | MoveLeft | MoveRight | MoveBack

  /** The vector `Execute` translates by: one unit in the horizontal
      plane. */
  function ExecuteOffset(k: Kind): (v: Vec3)
    ensures v.y == 0 && Norm(v) == 1
  {
    match k
    case MoveForward => Forward
    case MoveLeft => Left
    case MoveRight => Right
    case MoveBack => Back
  }

  /** The vector `Undo` translates by: the opposite of the one `Execute`
      uses. */
  function UndoOffset(k: Kind): (v: Vec3)
    ensures v == ExecuteOffset(k).Neg()
    ensures v.y == 0 && Norm(v) == 1
  {
    match k
    case MoveForward => Back
    case MoveLeft => Right
    case MoveRight => Left
    case MoveBack => Forward
  }

  type PlayerId = nat

  /** Player positions; a destroyed player has no entry. */
  type World = map<PlayerId, Vec3>

  /** A command object: its kind and the `_player` field, unset until the
      first `Execute`. */
  datatype Command = Command(kind: Kind, player: Option<PlayerId>)

  function NewCommand(k: Kind): (c: Command)
    ensures c.kind == k && c.player.None?
  {
    Command(k, None)
  }

  /** `Transform.Translate` on player `p`: fails when the player is gone,
      otherwise moves that player alone. */
  function Translate(w: World, p: PlayerId, v: Vec3): (r: Option<World>)
    ensures r.Some? <==> p in w
    ensures r.Some? ==> r.value.Keys == w.Keys
    ensures r.Some? ==> forall q :: q in w && q != p ==> r.value[q] == w[q]
    ensures r.Some? ==> r.value[p].Plus(v.Neg()) == w[p]
  {
    if p in w then Some(w[p := w[p].Plus(v)]) else None
  }

  datatype Executed = Executed(command: Command, world: Option<World>)

  /** `Execute(player)`: records the player first, then moves it, so the
      command remembers the player even when the move fails. */
  function Execute(c: Command, p: PlayerId, w: World): (r: Executed)
    ensures r.command == Command(c.kind, Some(p))
    ensures r.world.Some? <==> p in w
    ensures r.world.Some? ==> r.world.value.Keys == w.Keys
    ensures r.world.Some? ==> Distance(w[p], r.world.value[p]) == 1
    ensures r.world.Some? ==> AxesChanged(w[p], r.world.value[p]) == 1
    ensures r.world.Some? ==> r.world.value[p].y == w[p].y
    ensures r.world.Some? ==> forall q :: q in w && q != p ==> r.world.value[q] == w[q]
  {
    var recorded := c.(player := Some(p));
    if p in w then
      TranslateDistance(w[p], ExecuteOffset(c.kind));
      Executed(recorded, Translate(w, p, ExecuteOffset(c.kind)))
    else
      Executed(recorded, None)
  }

  /** `Undo()`: moves the recorded player back; fails when no player was
      recorded (a null `_player`) or the recorded one is gone. The command
      itself is unchanged. */
  function Undo(c: Command, w: World): (r: Option<World>)
    ensures r.Some? <==> c.player.Some? && c.player.value in w
    ensures r.Some? ==> r.value.Keys == w.Keys
    ensures r.Some? ==> Distance(w[c.player.value], r.value[c.player.value]) == 1
    ensures r.Some? ==> AxesChanged(w[c.player.value], r.value[c.player.value]) == 1
    ensures r.Some? ==> forall q :: q in w && q != c.player.value ==> r.value[q] == w[q]
  {
    match c.player
    case None => None
    case Some(p) =>
      if p in w then
        TranslateDistance(w[p], UndoOffset(c.kind));
        Translate(w, p, UndoOffset(c.kind))
      else
        None
  }

  // ---------------------------------------------------------------------
  // Properties of single commands

  /** `Execute` followed by `Undo` on the command it returned puts the player
      back where it was and leaves every other player where it was. */
  lemma ExecuteThenUndoRestores(c: Command, p: PlayerId, w: World)
    requires p in w
    ensures var e := Execute(c, p, w);
      e.world.Some? && Undo(e.command, e.world.value) == Some(w)
  {
    var e := Execute(c, p, w);
    var v := ExecuteOffset(c.kind);
    assert w[p].Plus(v).Plus(UndoOffset(c.kind)) == w[p];
    assert e.world.value[p := w[p]] == w;
  }

  /** `Undo` moves the player recorded by the latest `Execute`, whatever
      player the world holds besides. */
  lemma UndoMovesRecordedPlayer(c: Command, p: PlayerId, w: World, w': World)
    requires p in w'
    ensures var e := Execute(c, p, w);
      && Undo(e.command, w').Some?
      && Undo(e.command, w').value[p] == w'[p].Plus(UndoOffset(c.kind))
      && forall q :: q in w' && q != p ==> Undo(e.command, w').value[q] == w'[q]
  {
  }

  /** `MoveLeft` and `MoveRight` undo each other: executing one and then the
      other on the same player, in either order, restores the world. */
  lemma LeftRightInverse(p: PlayerId, w: World)
    requires p in w
    ensures var l := Execute(NewCommand(MoveLeft), p, w).world.value;
      Execute(NewCommand(MoveRight), p, l).world == Some(w)
    ensures var r := Execute(NewCommand(MoveRight), p, w).world.value;
      Execute(NewCommand(MoveLeft), p, r).world == Some(w)
  {
    assert w[p].Plus(Left).Plus(Right) == w[p];
    assert w[p].Plus(Right).Plus(Left) == w[p];
    assert w[p := w[p].Plus(Left)][p := w[p]] == w;
    assert w[p := w[p].Plus(Right)][p := w[p]] == w;
  }

  /** Likewise `MoveForWard` and `MoveBack`. */
  lemma ForwardBackInverse(p: PlayerId, w: World)
    requires p in w
    ensures var f := Execute(NewCommand(MoveForward), p, w).world.value;
      Execute(NewCommand(MoveBack), p, f).world == Some(w)
    ensures var b := Execute(NewCommand(MoveBack), p, w).world.value;
      Execute(NewCommand(MoveForward), p, b).world == Some(w)
  {
    assert w[p].Plus(Forward).Plus(Back) == w[p];
    assert w[p].Plus(Back).Plus(Forward) == w[p];
    assert w[p := w[p].Plus(Forward)][p := w[p]] == w;
    assert w[p := w[p].Plus(Back)][p := w[p]] == w;
  }

  // ---------------------------------------------------------------------
  // The undo history of CommandManager.cs

  /** The total displacement of a run of commands: horizontal, and no
      longer than the number of commands. */
  function Displacement(ks: seq<Kind>): (v: Vec3)
    ensures v.y == 0 && Norm(v) <= |ks|
  {
    if ks == [] then Zero else ExecuteOffset(ks[0]).Plus(Displacement(ks[1..]))
  }

  /** Appending one command to a run adds its offset to the displacement. */
  lemma {:induction false} DisplacementSnoc(ks: seq<Kind>, k: Kind)
    ensures Displacement(ks + [k]) == Displacement(ks).Plus(ExecuteOffset(k))
    decreases |ks|
  {
    if ks != [] {
      assert (ks + [k])[1..] == ks[1..] + [k];
      DisplacementSnoc(ks[1..], k);
      PlusAssociative(ExecuteOffset(ks[0]), Displacement(ks[1..]), ExecuteOffset(k));
    }
  }

  lemma LastSplit<T>(s: seq<T>)
    requires s != []
    ensures s[..|s| - 1] + [s[|s| - 1]] == s
  {
  }

  /** A session of input: the executed commands in order (`AddCommands`) and
      the resulting scene. */
  datatype Session = Session(history: seq<Command>, world: World)

  /** Executes fresh commands of the given kinds on player `p`, one after the
      other, adding each to the history once it has run. */
  function ExecuteAll(ks: seq<Kind>, p: PlayerId, w: World): (r: Option<Session>)
    ensures r.Some? <==> p in w
    ensures r.Some? ==> |r.value.history| == |ks|
    ensures r.Some? ==> forall i :: 0 <= i < |ks| ==>
      r.value.history[i] == Command(ks[i], Some(p))
    ensures r.Some? ==> r.value.world.Keys == w.Keys
    ensures r.Some? ==> forall q :: q in w && q != p ==> r.value.world[q] == w[q]
    ensures r.Some? ==> r.value.world[p] == w[p].Plus(Displacement(ks))
    decreases |ks|
  {
    if p !in w then None
    else if ks == [] then
      assert w[p].Plus(Zero) == w[p];
      Some(Session([], w))
    else
      var n := |ks| - 1;
      var before := ExecuteAll(ks[..n], p, w).value;
      var e := Execute(NewCommand(ks[n]), p, before.world);
      LastSplit(ks);
      DisplacementSnoc(ks[..n], ks[n]);
      PlusAssociative(w[p], Displacement(ks[..n]), ExecuteOffset(ks[n]));
      Some(Session(before.history + [e.command], e.world.value))
  }

  /** No command of `h` recorded player `q`. */
  ghost predicate Untouched(h: seq<Command>, q: PlayerId) {
    forall i :: 0 <= i < |h| ==> h[i].player != Some(q)
  }

  /** `UndoStart`: undoes the history from the newest command to the oldest;
      fails at the first command that cannot be undone. */
  function UndoAll(h: seq<Command>, w: World): (r: Option<World>)
    ensures r.Some? ==> r.value.Keys == w.Keys
    ensures r.Some? ==> forall q :: q in w && Untouched(h, q) ==> r.value[q] == w[q]
    decreases |h|
  {
    if h == [] then Some(w)
    else
      match Undo(h[|h| - 1], w)
      case None => None
      case Some(w') => UndoAll(h[..|h| - 1], w')
  }

  /** Undoing a whole session in reverse order restores the scene it started
      from. */
  lemma {:induction false} UndoAllRestores(ks: seq<Kind>, p: PlayerId, w: World)
    requires p in w
    ensures var s := ExecuteAll(ks, p, w).value;
      UndoAll(s.history, s.world) == Some(w)
    decreases |ks|
  {
    if ks != [] {
      var n := |ks| - 1;
      var before := ExecuteAll(ks[..n], p, w).value;
      var s := ExecuteAll(ks, p, w).value;
      ExecuteThenUndoRestores(NewCommand(ks[n]), p, before.world);
      assert s.history[..n] == before.history;
      UndoAllRestores(ks[..n], p, w);
    }
  }
}
