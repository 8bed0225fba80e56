/**
 * The client's `getOpposite` (client/src/utils.js). Unlike the server's it works on strings
 * throughout: tab types are the one-character strings "0", "1" and "2" read out of a piece
 * type name, and slot names are "top", "right", "bottom" and "left".
 */
module ClientUtils {
  import opened Grid
  import Catalogue

  /**
   * `getOpposite`: swaps "0" and "1", keeps "2", swaps the side names top/bottom and
   * left/right, and returns every other string as it is.
   */
  function GetOpposite(slot: string): (r: string)
    ensures |slot| == 1 ==> |r| == 1
    ensures r == slot <==> slot !in {"0", "1", "top", "bottom", "left", "right"}
  {
    if slot == "1" then "0"
    else if slot == "0" then "1"
    else if slot == "2" then "2"
    else if slot == "top" then "bottom"
    else if slot == "bottom" then "top"
    else if slot == "left" then "right"
    else if slot == "right" then "left"
    else slot
  }

  /** The opposite of an innie or an outtie character is the other one, never flat. */
  lemma OppositeOfInnieOrOuttie(c: char)
    requires c == '0' || c == '1'
    ensures GetOpposite([c]) == [if c == '0' then '1' else '0']
  {
  }

  /** On slot names the client's `getOpposite` is the typed `Opposite` of the server's grid helpers. */
  lemma OppositeOnSideNames(s: Side)
    ensures GetOpposite(SideName(s)) == SideName(Opposite(s))
  {
  }

  lemma OppositeFixesOtherStrings(slot: string)
    requires slot !in {"0", "1", "2", "top", "right", "bottom", "left"}
    ensures GetOpposite(slot) == slot
  {
  }

  /** `getOpposite` undoes itself on every string. */
  lemma OppositeInvolution(slot: string)
    ensures GetOpposite(GetOpposite(slot)) == slot
  {
  }

  /**
   * The client's string version agrees with the server's number version on tab types: the
   * opposite of the character of tab type `t` is the character of the opposite tab type, so "0" and
   * "1" swap and "2" stays.
   */
  lemma OppositeAgreesOnTabTypes(t: int)
    requires 0 <= t <= 2
    ensures GetOpposite([Catalogue.TabChar(t)]) == [Catalogue.TabChar(OppositeTab(t))]
    ensures GetOpposite("1") == "0" && GetOpposite("0") == "1" && GetOpposite("2") == "2"
  {
  }

  /**
   * On strings other than the tab characters both versions agree; the server's leaves "0", "1"
   * and "2" alone because it compares against numbers.
   */
  lemma OppositeAgreesOnOtherStrings(slot: string)
    requires slot !in {"0", "1", "2"}
    ensures Grid.GetOpposite(Str(slot)) == Str(GetOpposite(slot))
  {
  }
}
