/** Movement: a candidate next state of the true-state sampler, holding the
    transition probability scaled by 100 and the (row, col, head) target. */
module Moves {

  datatype Movement = Movement(probability: real, pos: seq<int>) {
    function RelativeProb(): real {
      probability
    }

    /** The stored position itself; nothing ever changes it. */
    function GetPos(): seq<int> {
      pos
    }
  }

  /** The constructor: scales the probability by 100 and stores the target. */
  function NewMovement(probability: real, row: int, col: int, head: int): (m: Movement)
    ensures m.RelativeProb() == 100.0 * probability
    ensures |m.GetPos()| == 3 && m.GetPos()[0] == row && m.GetPos()[1] == col && m.GetPos()[2] == head
  {
    Movement(probability * 100.0, [row, col, head])
  }
}

/** Reading: a candidate sensor reading, holding its probability scaled by
    100 and the reported cell, or (-1, -1) for "nothing". */
module Readings {

  datatype Reading = Reading(probability: real, pos: seq<int>) {
    function RelativeProb(): real {
      probability
    }

    /** The stored position itself; nothing ever changes it. */
    function GetPos(): seq<int> {
      pos
    }
  }

  /** The constructor: scales the probability by 100 and stores the
      coordinates unchecked, so the sentinel (-1, -1) comes back as given. */
  function NewReading(probability: real, row: int, col: int): (r: Reading)
    ensures r.RelativeProb() == 100.0 * probability
    ensures |r.GetPos()| == 2 && r.GetPos()[0] == row && r.GetPos()[1] == col
  {
    Reading(probability * 100.0, [row, col])
  }
}
