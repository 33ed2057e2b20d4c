/** The four cardinal directions and the command tokens that name them. */
module Directions {
  import opened Results

  datatype Direction = Up | Right | Down | Left

  /** The command token a host sends for each direction. */
  function Token(d: Direction): string {
    match d
    case Up => "up"
    case Right => "right"
    case Down => "down"
    case Left => "left"
  }

  /** Column offset of one step in direction `d` (columns grow to the right). */
  function DeltaX(d: Direction): int {
    match d
    case Right => 1
    case Left => -1
    case _ => 0
  }

  /** Row offset of one step in direction `d` (rows grow downwards). */
  function DeltaY(d: Direction): int {
    match d
    case Down => 1
    case Up => -1
    case _ => 0
  }

  /**
   * Parsing of a command token into a direction. Exactly the four
   * lower-case tokens are accepted; every other string is an error.
   */
  function Parse(input: string): (r: Result<Direction, ()>)
    ensures r.Ok? <==> input == "up" || input == "right" || input == "down" || input == "left"
    ensures r.Ok? ==> Token(r.value) == input
  {
    if input == "up" then Ok(Up)
    else if input == "right" then Ok(Right)
    else if input == "down" then Ok(Down)
    else if input == "left" then Ok(Left)
    else Err(())
  }

  /** Every direction's token parses back to that direction. */
  lemma ParseToken(d: Direction)
    ensures Parse(Token(d)) == Ok(d)
  {
  }
}
