/**
 Movement directions and the keys that request them. A direction is one of
 the four unit vectors of the (x, z) plane; the vertical component is always
 zero and is dropped.
 */
module Directions {
  import opened Wrappers

  datatype Dir = PlusX | MinusX | PlusZ | MinusZ {

    /** The x component of the unit vector. */
    function Dx(): int {
      match this
      case PlusX => 1
      case MinusX => -1
      case _ => 0
    }

    /** The z component of the unit vector. */
    function Dz(): int {
      match this
      case PlusZ => 1
      case MinusZ => -1
      case _ => 0
    }
  }

  /** The direction pointing the other way along the same axis. */
  function Opposite(d: Dir): (r: Dir)
    ensures r.Dx() == -d.Dx() && r.Dz() == -d.Dz()
  {
    match d
    case PlusX => MinusX
    case MinusX => PlusX
    case PlusZ => MinusZ
    case MinusZ => PlusZ
  }

  /**
   The direction a key asks for: the arrow keys and W/A/S/D. "Up" moves
   towards negative z and "down" towards positive z. Every other key asks for
   nothing.
   */
  function TurnKey(key: string): Option<Dir> {
    if key == "ArrowUp" || key == "w" then Some(MinusZ)
    else if key == "ArrowDown" || key == "s" then Some(PlusZ)
    else if key == "ArrowLeft" || key == "a" then Some(MinusX)
    else if key == "ArrowRight" || key == "d" then Some(PlusX)
    else None
  }

  /**
   Whether a request for `want` is taken while the committed direction is
   `current`. Each case tests one component of `current`, exactly as the key
   handler does; the contract states what that test amounts to: only the
   exact reversal of the committed direction is refused.
   */
  function Accepts(current: Dir, want: Dir): (r: bool)
    ensures r <==> want != Opposite(current)
  {
    match want
    case MinusZ => current.Dz() != 1
    case PlusZ => current.Dz() != -1
    case MinusX => current.Dx() != 1
    case PlusX => current.Dx() != -1
  }
}
