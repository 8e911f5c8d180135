/** The value types of a radar view and the two total code tables that turn
    small integer codes into them. */
module CodeTables {

  /** One wall segment between two adjacent cells of the visible window. */
  datatype Passage = Undefined | Open | Wall

  /** What one visible cell holds: a terrain marker (plain, hint, goal)
      combined with an occupant (none, ally, enemy, monster), or Undefined. */
  datatype RadarItem =
    | Empty | Ally | Enemy | Monster
    | Hint | HintWithAlly | HintWithEnemy | HintWithMonster
    | Goal | GoalWithAlly | GoalWithEnemy | GoalWithMonster
    | Undefined

  /** The canonical 2-bit code of a passage: the inverse of PassageFrom. */
  function PassageCode(p: Passage): (code: bv8)
    ensures code < 3
  {
    match p
    case Undefined => 0
    case Open => 1
    case Wall => 2
  }

  /** Terrain marker of a defined item, in the order plain, hint, goal. */
  function Terrain(item: RadarItem): (t: bv8)
    requires item != RadarItem.Undefined
    ensures t < 3
  {
    match item
    case Empty | Ally | Enemy | Monster => 0
    case Hint | HintWithAlly | HintWithEnemy | HintWithMonster => 1
    case Goal | GoalWithAlly | GoalWithEnemy | GoalWithMonster => 2
  }

  /** Occupant of a defined item, in the order none, ally, enemy, monster. */
  function Occupant(item: RadarItem): (o: bv8)
    requires item != RadarItem.Undefined
    ensures o < 4
  {
    match item
    case Empty | Hint | Goal => 0
    case Ally | HintWithAlly | GoalWithAlly => 1
    case Enemy | HintWithEnemy | GoalWithEnemy => 2
    case Monster | HintWithMonster | GoalWithMonster => 3
  }

  /** The canonical 4-bit code of an item: terrain in the high two bits,
      occupant in the low two, and 0b1111 for Undefined. */
  function RadarItemCode(item: RadarItem): (code: bv8)
    ensures code < 16
    ensures item == RadarItem.Undefined <==> code == 15
  {
    if item == RadarItem.Undefined then 15
    else (Terrain(item) << 2) | Occupant(item)
  }

  /** `From<u8> for Passage`: 1 is Open, 2 is Wall, every other code
      (0 and anything unmapped) is Undefined. Never fails. */
  function PassageFrom(value: bv8): (p: Passage)
    ensures p == Passage.Open <==> value == 1
    ensures p == Passage.Wall <==> value == 2
    ensures p == Passage.Undefined <==> value != 1 && value != 2
  {
    match value
    case 0 => Passage.Undefined
    case 1 => Passage.Open
    case 2 => Passage.Wall
    case _ => Passage.Undefined
  }

  /** `From<u8> for RadarItem`: codes 0 to 11 name the twelve defined items,
      whose terrain is the code's high two bits (code / 4) and occupant its
      low two bits (code % 4); every other code, 12 to 15 included, is
      Undefined. Never fails. */
  function RadarItemFrom(value: bv8): (item: RadarItem)
    ensures value < 12 ==>
      item != RadarItem.Undefined &&
      Terrain(item) == value >> 2 && Occupant(item) == value & 3
    ensures 12 <= value ==> item == RadarItem.Undefined
  {
    match value
    case 0x0 => RadarItem.Empty
    case 0x1 => RadarItem.Ally
    case 0x2 => RadarItem.Enemy
    case 0x3 => RadarItem.Monster
    case 0x4 => RadarItem.Hint
    case 0x5 => RadarItem.HintWithAlly
    case 0x6 => RadarItem.HintWithEnemy
    case 0x7 => RadarItem.HintWithMonster
    case 0x8 => RadarItem.Goal
    case 0x9 => RadarItem.GoalWithAlly
    case 0xA => RadarItem.GoalWithEnemy
    case 0xB => RadarItem.GoalWithMonster
    case 0xF => RadarItem.Undefined
    case _ => RadarItem.Undefined
  }

  /** Decoding the canonical code of a passage gives the passage back. */
  lemma PassageCodeRoundTrip(p: Passage)
    ensures PassageFrom(PassageCode(p)) == p
  {
  }

  /** Decoding the canonical code of an item gives the item back. */
  lemma RadarItemCodeRoundTrip(item: RadarItem)
    ensures RadarItemFrom(RadarItemCode(item)) == item
  {
  }

  /** The twelve defined codes name twelve distinct items. */
  lemma {:induction false} RadarItemFromInjective(a: bv8, b: bv8)
    requires a < 12 && b < 12
    requires RadarItemFrom(a) == RadarItemFrom(b)
    ensures a == b
  {
    var item := RadarItemFrom(a);
    assert a == (Terrain(item) << 2) | Occupant(item);
  }
}
