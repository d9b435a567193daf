// Configuration shared by every module: the arena size and the game settings
// (globals.py).
module Globals {

  /** Arena width and height in pixels. */
  const W: int := 640
  const H: int := 512

  /** An RGB colour; its components come from randint(0, 255). */
  datatype Color = Color(r: int, g: int, b: int)

  /** The process-wide game settings: one colour per snake slot, and how many
      of the slots are bots and how many are players. */
  class Settings {
    var colors: seq<Color>
    var botsCount: nat
    var playersCount: nat

    /** The defaults: ten colours (random in the game, given here) and one bot
        and three players. */
    constructor (initialColors: seq<Color>)
      requires |initialColors| == 10
      ensures colors == initialColors && botsCount == 1 && playersCount == 3
    {
      colors := initialColors;
      botsCount := 1;
      playersCount := 3;
    }

    function SnakesCount(): (n: nat)
      reads this
    {
      botsCount + playersCount
    }
  }
}
