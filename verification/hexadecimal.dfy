/** Lower-case hexadecimal, as the hashes are printed and compared. */
module Hexadecimal {
  import opened Words

  function Nibble(v: Byte): char {
    if v == 0 then '0' else if v == 1 then '1' else if v == 2 then '2' else if v == 3 then '3'
    else if v == 4 then '4' else if v == 5 then '5' else if v == 6 then '6' else if v == 7 then '7'
    else if v == 8 then '8' else if v == 9 then '9' else if v == 10 then 'a' else if v == 11 then 'b'
    else if v == 12 then 'c' else if v == 13 then 'd' else if v == 14 then 'e' else 'f'
  }

  function High(b: Byte): char {
    Nibble(b >> 4)
  }

  function Low(b: Byte): char {
    Nibble(b & 0xf)
  }

  function HexOf(d: seq<Byte>): (s: string)
    ensures |s| == 2 * |d|
  {
    if d == [] then [] else HexOf(d[..|d| - 1]) + [High(d[|d| - 1]), Low(d[|d| - 1])]
  }

  lemma {:induction false} HexAt(d: seq<Byte>, i: nat)
    requires i < |d|
    ensures HexOf(d)[2 * i] == High(d[i]) && HexOf(d)[2 * i + 1] == Low(d[i])
  {
    hide High, Low;
    if i < |d| - 1 {
      HexAt(d[..|d| - 1], i);
    }
  }

  /** The rendering loop. */
  method Hex(data: seq<Byte>) returns (s: string)
    ensures s == HexOf(data)
  {
    hide High, Low;
    s := [];
    for i := 0 to |data|
      invariant s == HexOf(data[..i])
    {
      assert data[..i + 1][..i] == data[..i];
      s := s + [High(data[i]), Low(data[i])];
    }
    assert data[..|data|] == data;
  }
}
