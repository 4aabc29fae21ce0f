/** Key code translation between Windows virtual keys and Linux evdev codes. */
module Keycode {
  import opened Protocol

  /** `vk_to_evdev` */
  function VkToEvdev(vk: u32): Option<u16> {
    match vk
    case 0x41 => Some(30) case 0x42 => Some(48) case 0x43 => Some(46) case 0x44 => Some(32)
    case 0x45 => Some(18) case 0x46 => Some(33) case 0x47 => Some(34) case 0x48 => Some(35)
    case 0x49 => Some(23) case 0x4A => Some(36) case 0x4B => Some(37) case 0x4C => Some(38)
    case 0x4D => Some(50) case 0x4E => Some(49) case 0x4F => Some(24) case 0x50 => Some(25)
    case 0x51 => Some(16) case 0x52 => Some(19) case 0x53 => Some(31) case 0x54 => Some(20)
    case 0x55 => Some(22) case 0x56 => Some(47) case 0x57 => Some(17) case 0x58 => Some(45)
    case 0x59 => Some(21) case 0x5A => Some(44) case 0x30 => Some(11) case 0x31 => Some(2)
    case 0x32 => Some(3) case 0x33 => Some(4) case 0x34 => Some(5) case 0x35 => Some(6)
    case 0x36 => Some(7) case 0x37 => Some(8) case 0x38 => Some(9) case 0x39 => Some(10)
    case 0x0D => Some(28) case 0x1B => Some(1) case 0x08 => Some(14) case 0x09 => Some(15)
    case 0x20 => Some(57) case 0x25 => Some(105) case 0x26 => Some(103) case 0x27 => Some(106)
    case 0x28 => Some(108) case 0xA0 => Some(42) case 0xA1 => Some(54) case 0xA2 => Some(29)
    case 0xA3 => Some(97) case 0xA4 => Some(56) case 0xA5 => Some(100) case 0x5B => Some(125)
    case 0x5C => Some(126) case 0x70 => Some(59) case 0x71 => Some(60) case 0x72 => Some(61)
    case 0x73 => Some(62) case 0x74 => Some(63) case 0x75 => Some(64) case 0x76 => Some(65)
    case 0x77 => Some(66) case 0x78 => Some(67) case 0x79 => Some(68) case 0x7A => Some(87)
    case 0x7B => Some(88) case 0x2D => Some(110) case 0x2E => Some(111) case 0x24 => Some(102)
    case 0x23 => Some(107) case 0x21 => Some(104) case 0x22 => Some(109) case 0xBA => Some(39)
    case 0xBB => Some(13) case 0xBC => Some(51) case 0xBD => Some(12) case 0xBE => Some(52)
    case 0xBF => Some(53) case 0xC0 => Some(41) case 0xDB => Some(26) case 0xDC => Some(43)
    case 0xDD => Some(27) case 0xDE => Some(40) case 0x14 => Some(58) case 0x90 => Some(69)
    case 0x91 => Some(70)
    case _ => None
  }

  /** `evdev_to_vk` */
  function EvdevToVk(code: u16): Option<u16> {
    match code
    case 30 => Some(0x41) case 48 => Some(0x42) case 46 => Some(0x43) case 32 => Some(0x44)
    case 18 => Some(0x45) case 33 => Some(0x46) case 34 => Some(0x47) case 35 => Some(0x48)
    case 23 => Some(0x49) case 36 => Some(0x4A) case 37 => Some(0x4B) case 38 => Some(0x4C)
    case 50 => Some(0x4D) case 49 => Some(0x4E) case 24 => Some(0x4F) case 25 => Some(0x50)
    case 16 => Some(0x51) case 19 => Some(0x52) case 31 => Some(0x53) case 20 => Some(0x54)
    case 22 => Some(0x55) case 47 => Some(0x56) case 17 => Some(0x57) case 45 => Some(0x58)
    case 21 => Some(0x59) case 44 => Some(0x5A) case 11 => Some(0x30) case 2 => Some(0x31)
    case 3 => Some(0x32) case 4 => Some(0x33) case 5 => Some(0x34) case 6 => Some(0x35)
    case 7 => Some(0x36) case 8 => Some(0x37) case 9 => Some(0x38) case 10 => Some(0x39)
    case 28 => Some(0x0D) case 1 => Some(0x1B) case 14 => Some(0x08) case 15 => Some(0x09)
    case 57 => Some(0x20) case 105 => Some(0x25) case 103 => Some(0x26) case 106 => Some(0x27)
    case 108 => Some(0x28) case 42 => Some(0xA0) case 54 => Some(0xA1) case 29 => Some(0xA2)
    case 97 => Some(0xA3) case 56 => Some(0xA4) case 100 => Some(0xA5) case 125 => Some(0x5B)
    case 126 => Some(0x5C) case 59 => Some(0x70) case 60 => Some(0x71) case 61 => Some(0x72)
    case 62 => Some(0x73) case 63 => Some(0x74) case 64 => Some(0x75) case 65 => Some(0x76)
    case 66 => Some(0x77) case 67 => Some(0x78) case 68 => Some(0x79) case 87 => Some(0x7A)
    case 88 => Some(0x7B) case 110 => Some(0x2D) case 111 => Some(0x2E) case 102 => Some(0x24)
    case 107 => Some(0x23) case 104 => Some(0x21) case 109 => Some(0x22) case 58 => Some(0x14)
    case 69 => Some(0x90) case 70 => Some(0x91)
    case _ => None
  }

  /** The eleven punctuation keys, VK_OEM_1 to VK_OEM_3 and VK_OEM_4 to VK_OEM_7. */
  predicate IsPunctuation(vk: int) { 0xBA <= vk <= 0xC0 || 0xDB <= vk <= 0xDE }

  /** The code of a punctuation key identifies it, though `EvdevToVk` does not know it. */
  function PunctuationVk(code: u16): Option<u16> {
    match code
    case 39 => Some(0xBA) case 13 => Some(0xBB) case 51 => Some(0xBC) case 12 => Some(0xBD)
    case 52 => Some(0xBE) case 53 => Some(0xBF) case 41 => Some(0xC0) case 26 => Some(0xDB)
    case 43 => Some(0xDC) case 27 => Some(0xDD) case 40 => Some(0xDE)
    case _ => None
  }

  /** The two tables agree: translating there and back gives the key itself, or nothing for
      the punctuation keys; and the code lies in the range the Linux device registers. */
  predicate TablesAgreeOn(vk: u32)
    requires VkToEvdev(vk).Some?
  {
    var code := VkToEvdev(vk).value;
    && 1 <= code <= 248
    && (EvdevToVk(code) == Some(vk) || (EvdevToVk(code) == None && PunctuationVk(code) == Some(vk)))
  }

  lemma LowKeysAgree(vk: u32)
    requires VkToEvdev(vk).Some? && vk <= 0x50
    ensures TablesAgreeOn(vk)
  {
  }

  lemma HighKeysAgree(vk: u32)
    requires VkToEvdev(vk).Some? && vk > 0x50
    ensures TablesAgreeOn(vk)
  {
  }

  lemma TablesAgree(vk: u32)
    requires VkToEvdev(vk).Some?
    ensures TablesAgreeOn(vk)
  {
    hide VkToEvdev, TablesAgreeOn;
    if vk <= 0x50 { LowKeysAgree(vk); } else { HighKeysAgree(vk); }
  }

  lemma {:induction false} VkToEvdevInjective(a: u32, b: u32)
    requires VkToEvdev(a).Some? && VkToEvdev(a) == VkToEvdev(b)
    ensures a == b
  {
    hide VkToEvdev, EvdevToVk, PunctuationVk, IsPunctuation;
    TablesAgree(a);
    TablesAgree(b);
  }

  lemma WhichIsPunctuation(code: u16)
    ensures PunctuationVk(code).Some? ==> IsPunctuation(PunctuationVk(code).value)
    ensures EvdevToVk(code).Some? ==> !IsPunctuation(EvdevToVk(code).value)
  {
  }

  predicate InverseIsKnownOn(code: u16)
    requires EvdevToVk(code).Some?
  {
    VkToEvdev(EvdevToVk(code).value) == Some(code)
  }

  lemma LowCodesAreKnown(code: u16)
    requires EvdevToVk(code).Some? && code <= 30
    ensures InverseIsKnownOn(code)
  {
  }

  lemma MiddleCodesAreKnown(code: u16)
    requires EvdevToVk(code).Some? && 30 < code <= 60
    ensures InverseIsKnownOn(code)
  {
  }

  lemma HighCodesAreKnown(code: u16)
    requires EvdevToVk(code).Some? && 60 < code <= 68
    ensures InverseIsKnownOn(code)
  {
  }

  lemma HighestCodesAreKnown(code: u16)
    requires EvdevToVk(code).Some? && code > 68
    ensures InverseIsKnownOn(code)
  {
  }

  /** The second table is exactly the inverse of the first one without the punctuation keys. */
  lemma InverseIsExact(code: u16, vk: u32)
    ensures EvdevToVk(code) == Some(vk) <==> VkToEvdev(vk) == Some(code) && !IsPunctuation(vk)
  {
    hide VkToEvdev, EvdevToVk, PunctuationVk, IsPunctuation;
    WhichIsPunctuation(code);
    if EvdevToVk(code) == Some(vk) {
      if code <= 30 { LowCodesAreKnown(code); }
      else if code <= 60 { MiddleCodesAreKnown(code); }
      else if code <= 68 { HighCodesAreKnown(code); }
      else { HighestCodesAreKnown(code); }
    }
    if VkToEvdev(vk) == Some(code) { TablesAgree(vk); }
  }

  /** Which key a code stands for on a Windows sink, if any. */
  lemma InverseOf(code: u16)
    ensures forall vk: u32 ::
              VkToEvdev(vk) == Some(code) && !IsPunctuation(vk) <==> EvdevToVk(code) == Some(vk)
  {
    hide VkToEvdev, EvdevToVk, IsPunctuation;
    forall vk: u32
      ensures VkToEvdev(vk) == Some(code) && !IsPunctuation(vk) <==> EvdevToVk(code) == Some(vk)
    {
      InverseIsExact(code, vk);
    }
  }
}
