/**
 * Shared vocabulary of the game core: optional values, the outcome of code
 * that may panic, the intent symbol an agent shows, the state of a
 * big_brain action, the agent kinds, and the bounded drive accumulators
 * (concern, satisfy, attention) that every scorer reads.
 */
module Common {

  datatype Option<T> = None | Some(value: T) {
    function GetOr(default: T): T {
      match this
      case Some(v) => v
      case None => default
    }
  }

  /** The outcome of Rust code that may abort: `expect`, `unwrap`, `todo!`. */
  datatype Run<T> = Done(value: T) | Panic

  /** The intent symbol an agent shows (`Act` in src/characters/actions.rs). */
  datatype Act = Idle | Walk | Attack | Open | Hurt | Die

  /**
   * The state of one big_brain action. `Init` is the framework's state
   * before a request; the systems of the game never touch it.
   */
  datatype ActionState = Init | Requested | Executing | Cancelled | Success | Failure

  /** The marker type a generic system is instantiated with (`char_type!(T)`). */
  datatype CharType = HumanType | MonsterType | NpcType | OtherType

  /** The `CharacterKind` component (src/characters/entities.rs). */
  datatype CharacterKind = Human | Monster | Animal

  /**
   * The contract every action system in the game follows for the state of
   * one action: a request starts execution, a cancellation resolves to
   * failure in the same tick, execution ends in success or failure or goes
   * on, and the other states are left alone.
   */
  predicate FollowsActionContract(before: ActionState, after: ActionState) {
    && (before == Requested ==> after == Executing)
    && (before == Cancelled ==> after == Failure)
    && (before == Executing ==> after in {Executing, Success, Failure})
    && (before in {Init, Success, Failure} ==> after == before)
  }

  /** The intent an action falls back to when it stops: Idle, unless the agent is dying. */
  function IdleUnlessDie(a: Act): (r: Act)
    ensures r == Die <==> a == Die
    ensures r == Idle || r == Die
  {
    if a == Die then Die else Idle
  }

  /** The cap of every drive accumulator. */
  const DriveCap: real := 100.0

  /**
   * One tick of a growing drive: `level += per_second * dt`, then the
   * value is capped at 100 when it reaches it.
   */
  function Grow(level: real, perSecond: real, dt: real): (r: real)
    ensures r <= DriveCap
    ensures r == DriveCap || r == level + perSecond * dt
    ensures r == DriveCap <==> level + perSecond * dt >= DriveCap
    ensures 0.0 <= perSecond * dt && level <= DriveCap ==> level <= r
  {
    var v := level + perSecond * dt;
    if v >= DriveCap then DriveCap else v
  }

  /** `f32::clamp(v, lo, hi)` for `lo <= hi`. */
  function Clamp(v: real, lo: real, hi: real): (r: real)
    requires lo <= hi
    ensures lo <= r <= hi
    ensures lo <= v <= hi ==> r == v
    ensures v < lo ==> r == lo
    ensures hi < v ==> r == hi
  {
    if v < lo then lo else if hi < v then hi else v
  }

  /** Scores are a drive divided by 100. */
  function DriveScore(level: real): (r: real)
    ensures 0.0 <= level <= DriveCap ==> 0.0 <= r <= 1.0
    ensures r >= 0.8 <==> level >= 80.0
    ensures r * DriveCap == level
  {
    level / DriveCap
  }
}
