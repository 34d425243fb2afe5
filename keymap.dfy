/**
 * The switch on `event.code` in the onKeyPress subscriber that the plugin's onStart
 * installs (plugins/audio_interface/bluetooth_controller/index.ts): four Linux input
 * key codes become playback commands sent over socket.io; every other code is ignored.
 */
module KeyMap {
  import opened Wrappers

  // Key codes from linux/input-event-codes.h
  const KEY_NEXTSONG: int := 163
  const KEY_PREVIOUSSONG: int := 165
  const KEY_PLAYCD: int := 200
  const KEY_PAUSECD: int := 201

  datatype Action = Prev | Next | Play | Pause

  /** The key that asks for each action. */
  function KeyOf(a: Action): (r: int)
    ensures r in {KEY_NEXTSONG, KEY_PREVIOUSSONG, KEY_PLAYCD, KEY_PAUSECD}
  {
    match a
    case Prev => KEY_PREVIOUSSONG
    case Next => KEY_NEXTSONG
    case Play => KEY_PLAYCD
    case Pause => KEY_PAUSECD
  }

  /** The socket.io message emitted for each action. */
  function Message(a: Action): (r: string)
    ensures r in {"prev", "next", "play", "pause"}
  {
    match a
    case Prev => "prev"
    case Next => "next"
    case Play => "play"
    case Pause => "pause"
  }

  /** The switch: the action a key code asks for, if any. */
  function ActionFor(code: int): (r: Option<Action>)
    ensures r.Some? ==> KeyOf(r.value) == code
    ensures r.None? <==> code !in {KEY_NEXTSONG, KEY_PREVIOUSSONG, KEY_PLAYCD, KEY_PAUSECD}
  {
    if code == KEY_PREVIOUSSONG then Some(Prev)
    else if code == KEY_NEXTSONG then Some(Next)
    else if code == KEY_PLAYCD then Some(Play)
    else if code == KEY_PAUSECD then Some(Pause)
    else None
  }

  /** The switch and KeyOf are inverse: a code asks for an action exactly when it is that action's key. */
  lemma ActionForIsInverse(code: int, a: Action)
    ensures ActionFor(code) == Some(a) <==> code == KeyOf(a)
  {
  }

  /** The socket messages emitted while a sequence of key codes is dispatched. */
  function Messages(codes: seq<int>): (r: seq<string>)
    ensures |r| <= |codes|
  {
    if codes == [] then []
    else
      var rest := Messages(codes[..|codes| - 1]);
      match ActionFor(codes[|codes| - 1])
      case Some(a) => rest + [Message(a)]
      case None => rest
  }

  /** Dispatching more keys only appends messages, one per recognised key, in order. */
  lemma {:induction false} MessagesAppend(a: seq<int>, b: seq<int>)
    ensures Messages(a + b) == Messages(a) + Messages(b)
    decreases |b|
  {
    if b == [] {
      assert a + b == a;
    } else {
      var b' := b[..|b| - 1];
      assert (a + b)[..|a + b| - 1] == a + b';
      assert (a + b)[|a + b| - 1] == b[|b| - 1];
      MessagesAppend(a, b');
    }
  }
}
