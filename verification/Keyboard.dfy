/** The keyboard behind the key tables: evdev numbers the keys of a PC keyboard row by row. */
module Keyboard {
  import opened Protocol
  import opened Keycode

  // Virtual keys from left to right; those of letters and digits are their ASCII codes. Each row
  // begins at the evdev code in its name.
  const ROW_1: seq<u32> :=
    [0x1B, '1' as int, '2' as int, '3' as int, '4' as int, '5' as int, '6' as int, '7' as int, '8' as int, '9' as int,
     '0' as int, 0xBD, 0xBB, 0x08]
  const ROW_15: seq<u32> :=
    [0x09, 'Q' as int, 'W' as int, 'E' as int, 'R' as int, 'T' as int, 'Y' as int, 'U' as int, 'I' as int, 'O' as int,
     'P' as int, 0xDB, 0xDD, 0x0D]
  const ROW_29: seq<u32> :=
    [0xA2, 'A' as int, 'S' as int, 'D' as int, 'F' as int, 'G' as int, 'H' as int, 'J' as int, 'K' as int, 'L' as int,
     0xBA, 0xDE, 0xC0]
  const ROW_42: seq<u32> :=
    [0xA0, 0xDC, 'Z' as int, 'X' as int, 'C' as int, 'V' as int, 'B' as int, 'N' as int, 'M' as int, 0xBC, 0xBE, 0xBF,
     0xA1]
  const ROW_56: seq<u32> := [0xA4, 0x20, 0x14]
  // F1 to F10 and the two locks; F11 and F12.
  const ROW_59: seq<u32> := [0x70, 0x71, 0x72, 0x73, 0x74, 0x75, 0x76, 0x77, 0x78, 0x79, 0x90, 0x91]
  const ROW_87: seq<u32> := [0x7A, 0x7B]
  // Home, up, page up, left, right, end, down, page down, insert, delete.
  const ROW_102: seq<u32> := [0x24, 0x26, 0x21, 0x25, 0x27, 0x23, 0x28, 0x22, 0x2D, 0x2E]

  /** The key with an evdev code. */
  function KeyAt(code: int): Option<u32> {
    if 1 <= code < 15 then Some(ROW_1[code - 1])
    else if 15 <= code < 29 then Some(ROW_15[code - 15])
    else if 29 <= code < 42 then Some(ROW_29[code - 29])
    else if 42 <= code < 55 then Some(ROW_42[code - 42])
    else if 56 <= code < 59 then Some(ROW_56[code - 56])
    else if 59 <= code < 71 then Some(ROW_59[code - 59])
    else if 87 <= code < 89 then Some(ROW_87[code - 87])
    else if code == 97 then Some(0xA3)
    else if code == 100 then Some(0xA5)
    else if 102 <= code < 112 then Some(ROW_102[code - 102])
    else if code == 125 then Some(0x5B)
    else if code == 126 then Some(0x5C)
    else None
  }

  lemma Row1()
    ensures forall i :: 0 <= i < |ROW_1| ==> VkToEvdev(ROW_1[i]) == Some(1 + i)
  {
  }

  lemma Row15()
    ensures forall i :: 0 <= i < |ROW_15| ==> VkToEvdev(ROW_15[i]) == Some(15 + i)
  {
  }

  lemma Row29()
    ensures forall i :: 0 <= i < |ROW_29| ==> VkToEvdev(ROW_29[i]) == Some(29 + i)
  {
  }

  lemma Row42()
    ensures forall i :: 0 <= i < |ROW_42| ==> VkToEvdev(ROW_42[i]) == Some(42 + i)
  {
  }

  lemma Row59()
    ensures forall i :: 0 <= i < |ROW_59| ==> VkToEvdev(ROW_59[i]) == Some(59 + i)
  {
  }

  lemma OtherKeys()
    ensures forall i :: 0 <= i < |ROW_56| ==> VkToEvdev(ROW_56[i]) == Some(56 + i)
    ensures forall i :: 0 <= i < |ROW_87| ==> VkToEvdev(ROW_87[i]) == Some(87 + i)
    ensures VkToEvdev(0xA3) == Some(97) && VkToEvdev(0xA5) == Some(100)
    ensures VkToEvdev(0x5B) == Some(125) && VkToEvdev(0x5C) == Some(126)
  {
  }

  lemma Row102()
    ensures forall i :: 0 <= i < |ROW_102| ==> VkToEvdev(ROW_102[i]) == Some(102 + i)
  {
  }

  /** Every code of the capture table belongs to some key. */
  lemma CodesAreKeys(vk: u32)
    requires VkToEvdev(vk).Some?
    ensures KeyAt(VkToEvdev(vk).value).Some?
  {
  }

  lemma {:induction false} TableHasKey(code: u16)
    requires KeyAt(code).Some?
    ensures VkToEvdev(KeyAt(code).value) == Some(code)
  {
    hide VkToEvdev;
    Row1();
    Row15();
    Row29();
    Row42();
    Row59();
    Row102();
    OtherKeys();
  }

  /** The capture table is exactly the keyboard: a virtual key has the code of its place, and the
      table has no other key. The inject table is the same without the punctuation keys. */
  lemma {:induction false} TablesAreKeyboard(vk: u32, code: u16)
    ensures VkToEvdev(vk) == Some(code) <==> KeyAt(code) == Some(vk)
    ensures EvdevToVk(code) == Some(vk) <==>
              KeyAt(code) == Some(vk) && !(0xBA <= vk <= 0xC0) && !(0xDB <= vk <= 0xDE)
  {
    hide VkToEvdev, EvdevToVk, KeyAt;
    if KeyAt(code).Some? { TableHasKey(code); }
    if VkToEvdev(vk) == Some(code) {
      CodesAreKeys(vk);
      VkToEvdevInjective(vk, KeyAt(code).value);
    }
    InverseIsExact(code, vk);
  }
}
