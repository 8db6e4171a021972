/** The byte strings that are UTF-8 (section 4 of RFC 3629), as the strings of the source are. */
module Utf8 {
  import opened Results

  predicate Continues(b: byte) { 0x80 <= b <= 0xBF }

  predicate BeginsThree(b: byte, c: byte)
  {
    || (b == 0xE0 && 0xA0 <= c <= 0xBF)
    || (0xE1 <= b <= 0xEF && b != 0xED && Continues(c))
    || (b == 0xED && 0x80 <= c <= 0x9F)
  }

  predicate BeginsFour(b: byte, c: byte)
  {
    || (b == 0xF0 && 0x90 <= c <= 0xBF)
    || (0xF1 <= b <= 0xF3 && Continues(c))
    || (b == 0xF4 && 0x80 <= c <= 0x8F)
  }

  /** The length of the character in front, or 0 if there is none. */
  function CharLen(s: seq<byte>): (n: nat)
    requires s != []
    ensures n <= |s|
  {
    if s[0] < 0x80 then 1
    else if |s| >= 2 && 0xC2 <= s[0] <= 0xDF && Continues(s[1]) then 2
    else if |s| >= 3 && BeginsThree(s[0], s[1]) && Continues(s[2]) then 3
    else if |s| >= 4 && BeginsFour(s[0], s[1]) && Continues(s[2]) && Continues(s[3]) then 4
    else 0
  }

  predicate IsText(s: seq<byte>)
    decreases |s|
  {
    s == [] || (CharLen(s) > 0 && IsText(s[CharLen(s)..]))
  }

  type Text = s: seq<byte> | IsText(s)

  /** No character reaches over a zero byte, or beyond it. */
  lemma CharBeforeZero(x: seq<byte>, y: seq<byte>)
    requires x != []
    ensures CharLen(x + [0] + y) == CharLen(x)
  {
    var s := x + [0] + y;
    assert s[|x|] == 0 && forall i :: 0 <= i < |x| ==> s[i] == x[i];
  }

  /** A zero byte is a character, and cuts a text into two texts. */
  lemma {:induction false} TextAroundZero(x: seq<byte>, y: seq<byte>)
    ensures IsText(x + [0] + y) <==> IsText(x) && IsText(y)
    decreases |x|
  {
    var s := x + [0] + y;
    if x == [] {
      assert CharLen(s) == 1 && s[1..] == y;
    } else {
      CharBeforeZero(x, y);
      var n := CharLen(x);
      if n > 0 {
        TextAroundZero(x[n..], y);
        assert s[n..] == x[n..] + [0] + y;
      }
    }
  }
}
