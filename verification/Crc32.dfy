/** CRC-32 as used by the DFU file suffix (USB DFU 1.1, Appendix B).
    The bit-by-bit register is the reference; the byte-wise table form of the
    program refines it. */
module Crc32 {

  const POLYNOMIAL: bv32 := 0xedb88320
  const INITIAL: bv32 := 0xffffffff

  /** What one shift of the reflected register feeds back. */
  function Feedback(c: bv32): bv32 {
    if c & 1 == 1 then POLYNOMIAL else 0
  }

  /** One bit of the reference register. */
  function Shift(c: bv32): bv32 {
    (c >> 1) ^ Feedback(c)
  }

  function Shifts(c: bv32, n: nat): bv32
    decreases n
  {
    if n == 0 then c else Shifts(Shift(c), n - 1)
  }

  function Xor(a: bv32, b: bv32): bv32 {
    a ^ b
  }

  /** Reference: the byte enters the low end of the register, then eight shifts. */
  function ReferenceByte(c: bv32, b: bv8): bv32 {
    Shifts(Xor(c, b as bv32), 8)
  }

  /** The reference register after a whole byte string. */
  function Reference(c: bv32, s: seq<bv8>): bv32
    decreases |s|
  {
    if s == [] then c else Reference(ReferenceByte(c, s[0]), s[1..])
  }

  // The program's lookup table, entry by entry, in rows of 32.

  function TableRow0(i: bv8): bv32 {
    match i
    case 0 => 0x00000000 case 1 => 0x77073096 case 2 => 0xee0e612c case 3 => 0x990951ba
    case 4 => 0x076dc419 case 5 => 0x706af48f case 6 => 0xe963a535 case 7 => 0x9e6495a3
    case 8 => 0x0edb8832 case 9 => 0x79dcb8a4 case 10 => 0xe0d5e91e case 11 => 0x97d2d988
    case 12 => 0x09b64c2b case 13 => 0x7eb17cbd case 14 => 0xe7b82d07 case 15 => 0x90bf1d91
    case 16 => 0x1db71064 case 17 => 0x6ab020f2 case 18 => 0xf3b97148 case 19 => 0x84be41de
    case 20 => 0x1adad47d case 21 => 0x6ddde4eb case 22 => 0xf4d4b551 case 23 => 0x83d385c7
    case 24 => 0x136c9856 case 25 => 0x646ba8c0 case 26 => 0xfd62f97a case 27 => 0x8a65c9ec
    case 28 => 0x14015c4f case 29 => 0x63066cd9 case 30 => 0xfa0f3d63 case 31 => 0x8d080df5
    case _ => 0
  }

  function TableRow1(i: bv8): bv32 {
    match i
    case 32 => 0x3b6e20c8 case 33 => 0x4c69105e case 34 => 0xd56041e4 case 35 => 0xa2677172
    case 36 => 0x3c03e4d1 case 37 => 0x4b04d447 case 38 => 0xd20d85fd case 39 => 0xa50ab56b
    case 40 => 0x35b5a8fa case 41 => 0x42b2986c case 42 => 0xdbbbc9d6 case 43 => 0xacbcf940
    case 44 => 0x32d86ce3 case 45 => 0x45df5c75 case 46 => 0xdcd60dcf case 47 => 0xabd13d59
    case 48 => 0x26d930ac case 49 => 0x51de003a case 50 => 0xc8d75180 case 51 => 0xbfd06116
    case 52 => 0x21b4f4b5 case 53 => 0x56b3c423 case 54 => 0xcfba9599 case 55 => 0xb8bda50f
    case 56 => 0x2802b89e case 57 => 0x5f058808 case 58 => 0xc60cd9b2 case 59 => 0xb10be924
    case 60 => 0x2f6f7c87 case 61 => 0x58684c11 case 62 => 0xc1611dab case 63 => 0xb6662d3d
    case _ => 0
  }

  function TableRow2(i: bv8): bv32 {
    match i
    case 64 => 0x76dc4190 case 65 => 0x01db7106 case 66 => 0x98d220bc case 67 => 0xefd5102a
    case 68 => 0x71b18589 case 69 => 0x06b6b51f case 70 => 0x9fbfe4a5 case 71 => 0xe8b8d433
    case 72 => 0x7807c9a2 case 73 => 0x0f00f934 case 74 => 0x9609a88e case 75 => 0xe10e9818
    case 76 => 0x7f6a0dbb case 77 => 0x086d3d2d case 78 => 0x91646c97 case 79 => 0xe6635c01
    case 80 => 0x6b6b51f4 case 81 => 0x1c6c6162 case 82 => 0x856530d8 case 83 => 0xf262004e
    case 84 => 0x6c0695ed case 85 => 0x1b01a57b case 86 => 0x8208f4c1 case 87 => 0xf50fc457
    case 88 => 0x65b0d9c6 case 89 => 0x12b7e950 case 90 => 0x8bbeb8ea case 91 => 0xfcb9887c
    case 92 => 0x62dd1ddf case 93 => 0x15da2d49 case 94 => 0x8cd37cf3 case 95 => 0xfbd44c65
    case _ => 0
  }

  function TableRow3(i: bv8): bv32 {
    match i
    case 96 => 0x4db26158 case 97 => 0x3ab551ce case 98 => 0xa3bc0074 case 99 => 0xd4bb30e2
    case 100 => 0x4adfa541 case 101 => 0x3dd895d7 case 102 => 0xa4d1c46d case 103 => 0xd3d6f4fb
    case 104 => 0x4369e96a case 105 => 0x346ed9fc case 106 => 0xad678846 case 107 => 0xda60b8d0
    case 108 => 0x44042d73 case 109 => 0x33031de5 case 110 => 0xaa0a4c5f case 111 => 0xdd0d7cc9
    case 112 => 0x5005713c case 113 => 0x270241aa case 114 => 0xbe0b1010 case 115 => 0xc90c2086
    case 116 => 0x5768b525 case 117 => 0x206f85b3 case 118 => 0xb966d409 case 119 => 0xce61e49f
    case 120 => 0x5edef90e case 121 => 0x29d9c998 case 122 => 0xb0d09822 case 123 => 0xc7d7a8b4
    case 124 => 0x59b33d17 case 125 => 0x2eb40d81 case 126 => 0xb7bd5c3b case 127 => 0xc0ba6cad
    case _ => 0
  }

  function TableRow4(i: bv8): bv32 {
    match i
    case 128 => 0xedb88320 case 129 => 0x9abfb3b6 case 130 => 0x03b6e20c case 131 => 0x74b1d29a
    case 132 => 0xead54739 case 133 => 0x9dd277af case 134 => 0x04db2615 case 135 => 0x73dc1683
    case 136 => 0xe3630b12 case 137 => 0x94643b84 case 138 => 0x0d6d6a3e case 139 => 0x7a6a5aa8
    case 140 => 0xe40ecf0b case 141 => 0x9309ff9d case 142 => 0x0a00ae27 case 143 => 0x7d079eb1
    case 144 => 0xf00f9344 case 145 => 0x8708a3d2 case 146 => 0x1e01f268 case 147 => 0x6906c2fe
    case 148 => 0xf762575d case 149 => 0x806567cb case 150 => 0x196c3671 case 151 => 0x6e6b06e7
    case 152 => 0xfed41b76 case 153 => 0x89d32be0 case 154 => 0x10da7a5a case 155 => 0x67dd4acc
    case 156 => 0xf9b9df6f case 157 => 0x8ebeeff9 case 158 => 0x17b7be43 case 159 => 0x60b08ed5
    case _ => 0
  }

  function TableRow5(i: bv8): bv32 {
    match i
    case 160 => 0xd6d6a3e8 case 161 => 0xa1d1937e case 162 => 0x38d8c2c4 case 163 => 0x4fdff252
    case 164 => 0xd1bb67f1 case 165 => 0xa6bc5767 case 166 => 0x3fb506dd case 167 => 0x48b2364b
    case 168 => 0xd80d2bda case 169 => 0xaf0a1b4c case 170 => 0x36034af6 case 171 => 0x41047a60
    case 172 => 0xdf60efc3 case 173 => 0xa867df55 case 174 => 0x316e8eef case 175 => 0x4669be79
    case 176 => 0xcb61b38c case 177 => 0xbc66831a case 178 => 0x256fd2a0 case 179 => 0x5268e236
    case 180 => 0xcc0c7795 case 181 => 0xbb0b4703 case 182 => 0x220216b9 case 183 => 0x5505262f
    case 184 => 0xc5ba3bbe case 185 => 0xb2bd0b28 case 186 => 0x2bb45a92 case 187 => 0x5cb36a04
    case 188 => 0xc2d7ffa7 case 189 => 0xb5d0cf31 case 190 => 0x2cd99e8b case 191 => 0x5bdeae1d
    case _ => 0
  }

  function TableRow6(i: bv8): bv32 {
    match i
    case 192 => 0x9b64c2b0 case 193 => 0xec63f226 case 194 => 0x756aa39c case 195 => 0x026d930a
    case 196 => 0x9c0906a9 case 197 => 0xeb0e363f case 198 => 0x72076785 case 199 => 0x05005713
    case 200 => 0x95bf4a82 case 201 => 0xe2b87a14 case 202 => 0x7bb12bae case 203 => 0x0cb61b38
    case 204 => 0x92d28e9b case 205 => 0xe5d5be0d case 206 => 0x7cdcefb7 case 207 => 0x0bdbdf21
    case 208 => 0x86d3d2d4 case 209 => 0xf1d4e242 case 210 => 0x68ddb3f8 case 211 => 0x1fda836e
    case 212 => 0x81be16cd case 213 => 0xf6b9265b case 214 => 0x6fb077e1 case 215 => 0x18b74777
    case 216 => 0x88085ae6 case 217 => 0xff0f6a70 case 218 => 0x66063bca case 219 => 0x11010b5c
    case 220 => 0x8f659eff case 221 => 0xf862ae69 case 222 => 0x616bffd3 case 223 => 0x166ccf45
    case _ => 0
  }

  function TableRow7(i: bv8): bv32 {
    match i
    case 224 => 0xa00ae278 case 225 => 0xd70dd2ee case 226 => 0x4e048354 case 227 => 0x3903b3c2
    case 228 => 0xa7672661 case 229 => 0xd06016f7 case 230 => 0x4969474d case 231 => 0x3e6e77db
    case 232 => 0xaed16a4a case 233 => 0xd9d65adc case 234 => 0x40df0b66 case 235 => 0x37d83bf0
    case 236 => 0xa9bcae53 case 237 => 0xdebb9ec5 case 238 => 0x47b2cf7f case 239 => 0x30b5ffe9
    case 240 => 0xbdbdf21c case 241 => 0xcabac28a case 242 => 0x53b39330 case 243 => 0x24b4a3a6
    case 244 => 0xbad03605 case 245 => 0xcdd70693 case 246 => 0x54de5729 case 247 => 0x23d967bf
    case 248 => 0xb3667a2e case 249 => 0xc4614ab8 case 250 => 0x5d681b02 case 251 => 0x2a6f2b94
    case 252 => 0xb40bbe37 case 253 => 0xc30c8ea1 case 254 => 0x5a05df1b case 255 => 0x2d02ef8d
    case _ => 0
  }

  function Table(i: bv8): bv32 {
    if i < 32 then TableRow0(i)
    else if i < 64 then TableRow1(i)
    else if i < 96 then TableRow2(i)
    else if i < 128 then TableRow3(i)
    else if i < 160 then TableRow4(i)
    else if i < 192 then TableRow5(i)
    else if i < 224 then TableRow6(i)
    else TableRow7(i)
  }

  /** The program's step: one table entry, and the register shifted by a byte. */
  function TableByte(c: bv32, b: bv8): bv32 {
    Table(((c ^ (b as bv32)) & 0xff) as bv8) ^ (c >> 8)
  }

  // ----- bits that have not reached the low end only move down

  function Half(z: bv32): bv32 {
    z >> 1
  }

  predicate Even(z: bv32) {
    z & 1 == 0
  }

  /** The register values `a` and `b` differ in exactly the bits of `z`. */
  predicate Differ(a: bv32, b: bv32, z: bv32) {
    a == b ^ z
  }

  function Down(z: bv32, n: nat): bv32
    decreases n
  {
    if n == 0 then z else Down(Half(z), n - 1)
  }

  /** The `n` low bits of `z` are zero. */
  predicate Clear(z: bv32, n: nat)
    decreases n
  {
    n == 0 || (Even(z) && Clear(Half(z), n - 1))
  }

  lemma ShiftXor(y: bv32, z: bv32)
    requires z & 1 == 0
    ensures Shift(y ^ z) == Shift(y) ^ (z >> 1)
  {
  }

  lemma ShiftDiffer(a: bv32, b: bv32, z: bv32)
    requires Even(z) && Differ(a, b, z)
    ensures Differ(Shift(a), Shift(b), Half(z))
  {
    hide Shift;
    ShiftXor(b, z);
  }

  lemma {:induction false} ShiftsDiffer(a: bv32, b: bv32, z: bv32, n: nat)
    requires Clear(z, n) && Differ(a, b, z)
    ensures Differ(Shifts(a, n), Shifts(b, n), Down(z, n))
    decreases n
  {
    hide Shift, Differ, Half, Even;
    if n > 0 {
      ShiftDiffer(a, b, z);
      ShiftsDiffer(Shift(a), Shift(b), Half(z), n - 1);
    }
  }

  lemma ShiftInjective(a: bv32, b: bv32)
    requires Shift(a) == Shift(b)
    ensures a == b
  {
  }

  lemma {:induction false} ShiftsInjective(a: bv32, b: bv32, n: nat)
    requires Shifts(a, n) == Shifts(b, n)
    ensures a == b
    decreases n
  {
    hide Shift;
    if n > 0 {
      ShiftsInjective(Shift(a), Shift(b), n - 1);
      ShiftInjective(a, b);
    }
  }

  lemma {:induction false} ShiftsCompose(c: bv32, m: nat, n: nat)
    ensures Shifts(Shifts(c, m), n) == Shifts(c, m + n)
    decreases m
  {
    hide Shift;
    if m > 0 {
      ShiftsCompose(Shift(c), m - 1, n);
    }
  }

  lemma {:induction false} ShiftsOfZero(n: nat)
    ensures Shifts(0, n) == 0
    decreases n
  {
    if n > 0 {
      assert Shift(0) == 0;
      ShiftsOfZero(n - 1);
    }
  }

  // ----- the table form refines the reference

  lemma TableRowEntries0(i: bv8)
    requires 0 <= i <= 31
    ensures TableRow0(i) == Shifts(i as bv32, 8)
  {
    match i
    case 0 => case 1 => case 2 => case 3 => case 4 => case 5 => case 6 => case 7 =>
    case 8 => case 9 => case 10 => case 11 => case 12 => case 13 => case 14 => case 15 =>
    case 16 => case 17 => case 18 => case 19 => case 20 => case 21 => case 22 => case 23 =>
    case 24 => case 25 => case 26 => case 27 => case 28 => case 29 => case 30 => case 31 =>
    case _ =>
  }

  lemma TableRowEntries1(i: bv8)
    requires 32 <= i <= 63
    ensures TableRow1(i) == Shifts(i as bv32, 8)
  {
    match i
    case 32 => case 33 => case 34 => case 35 => case 36 => case 37 => case 38 => case 39 =>
    case 40 => case 41 => case 42 => case 43 => case 44 => case 45 => case 46 => case 47 =>
    case 48 => case 49 => case 50 => case 51 => case 52 => case 53 => case 54 => case 55 =>
    case 56 => case 57 => case 58 => case 59 => case 60 => case 61 => case 62 => case 63 =>
    case _ =>
  }

  lemma TableRowEntries2(i: bv8)
    requires 64 <= i <= 95
    ensures TableRow2(i) == Shifts(i as bv32, 8)
  {
    match i
    case 64 => case 65 => case 66 => case 67 => case 68 => case 69 => case 70 => case 71 =>
    case 72 => case 73 => case 74 => case 75 => case 76 => case 77 => case 78 => case 79 =>
    case 80 => case 81 => case 82 => case 83 => case 84 => case 85 => case 86 => case 87 =>
    case 88 => case 89 => case 90 => case 91 => case 92 => case 93 => case 94 => case 95 =>
    case _ =>
  }

  lemma TableRowEntries3(i: bv8)
    requires 96 <= i <= 127
    ensures TableRow3(i) == Shifts(i as bv32, 8)
  {
    match i
    case 96 => case 97 => case 98 => case 99 => case 100 => case 101 => case 102 => case 103 =>
    case 104 => case 105 => case 106 => case 107 => case 108 => case 109 => case 110 => case 111 =>
    case 112 => case 113 => case 114 => case 115 => case 116 => case 117 => case 118 => case 119 =>
    case 120 => case 121 => case 122 => case 123 => case 124 => case 125 => case 126 => case 127 =>
    case _ =>
  }

  lemma TableRowEntries4(i: bv8)
    requires 128 <= i <= 159
    ensures TableRow4(i) == Shifts(i as bv32, 8)
  {
    match i
    case 128 => case 129 => case 130 => case 131 => case 132 => case 133 => case 134 => case 135 =>
    case 136 => case 137 => case 138 => case 139 => case 140 => case 141 => case 142 => case 143 =>
    case 144 => case 145 => case 146 => case 147 => case 148 => case 149 => case 150 => case 151 =>
    case 152 => case 153 => case 154 => case 155 => case 156 => case 157 => case 158 => case 159 =>
    case _ =>
  }

  lemma TableRowEntries5(i: bv8)
    requires 160 <= i <= 191
    ensures TableRow5(i) == Shifts(i as bv32, 8)
  {
    match i
    case 160 => case 161 => case 162 => case 163 => case 164 => case 165 => case 166 => case 167 =>
    case 168 => case 169 => case 170 => case 171 => case 172 => case 173 => case 174 => case 175 =>
    case 176 => case 177 => case 178 => case 179 => case 180 => case 181 => case 182 => case 183 =>
    case 184 => case 185 => case 186 => case 187 => case 188 => case 189 => case 190 => case 191 =>
    case _ =>
  }

  lemma TableRowEntries6(i: bv8)
    requires 192 <= i <= 223
    ensures TableRow6(i) == Shifts(i as bv32, 8)
  {
    match i
    case 192 => case 193 => case 194 => case 195 => case 196 => case 197 => case 198 => case 199 =>
    case 200 => case 201 => case 202 => case 203 => case 204 => case 205 => case 206 => case 207 =>
    case 208 => case 209 => case 210 => case 211 => case 212 => case 213 => case 214 => case 215 =>
    case 216 => case 217 => case 218 => case 219 => case 220 => case 221 => case 222 => case 223 =>
    case _ =>
  }

  lemma TableRowEntries7(i: bv8)
    requires 224 <= i <= 255
    ensures TableRow7(i) == Shifts(i as bv32, 8)
  {
    match i
    case 224 => case 225 => case 226 => case 227 => case 228 => case 229 => case 230 => case 231 =>
    case 232 => case 233 => case 234 => case 235 => case 236 => case 237 => case 238 => case 239 =>
    case 240 => case 241 => case 242 => case 243 => case 244 => case 245 => case 246 => case 247 =>
    case 248 => case 249 => case 250 => case 251 => case 252 => case 253 => case 254 => case 255 =>
    case _ =>
  }

  /** Each of the 256 entries is eight shifts of its own index. */
  lemma TableEntry(i: bv8)
    ensures Table(i) == Shifts(i as bv32, 8)
  {
    hide TableRow0, TableRow1, TableRow2, TableRow3, TableRow4, TableRow5, TableRow6, TableRow7, Shifts;
    if i <= 31 {
      TableRowEntries0(i);
    } else if i <= 63 {
      TableRowEntries1(i);
    } else if i <= 95 {
      TableRowEntries2(i);
    } else if i <= 127 {
      TableRowEntries3(i);
    } else if i <= 159 {
      TableRowEntries4(i);
    } else if i <= 191 {
      TableRowEntries5(i);
    } else if i <= 223 {
      TableRowEntries6(i);
    } else {
      TableRowEntries7(i);
    }
  }

  /** One bit more is clear below a value whose upper bits are. */
  lemma ClearStep(z: bv32, h: bv32, n: nat)
    requires Even(z) && Half(z) == h && Clear(h, n)
    ensures Clear(z, n + 1) && Down(z, n + 1) == Down(h, n)
  {
    hide Half, Even;
  }

  lemma LowBitsEven(z: bv32)
    requires z & 0xff == 0
    ensures Even(z) && Even(z >> 1) && Even(z >> 2) && Even(z >> 3)
    ensures Even(z >> 4) && Even(z >> 5) && Even(z >> 6) && Even(z >> 7)
  {
  }

  lemma HalvesOf(z: bv32)
    ensures Half(z) == z >> 1 && Half(z >> 1) == z >> 2 && Half(z >> 2) == z >> 3 && Half(z >> 3) == z >> 4
    ensures Half(z >> 4) == z >> 5 && Half(z >> 5) == z >> 6 && Half(z >> 6) == z >> 7 && Half(z >> 7) == z >> 8
  {
  }

  lemma ByteMoves(z: bv32)
    requires z & 0xff == 0
    ensures Clear(z, 8) && Down(z, 8) == z >> 8
  {
    LowBitsEven(z);
    HalvesOf(z);
    hide Half, Even;
    assert Clear(z >> 8, 0) && Down(z >> 8, 0) == z >> 8;
    hide Clear, Down;
    ClearStep(z >> 7, z >> 8, 0);
    ClearStep(z >> 6, z >> 7, 1);
    ClearStep(z >> 5, z >> 6, 2);
    ClearStep(z >> 4, z >> 5, 3);
    ClearStep(z >> 3, z >> 4, 4);
    ClearStep(z >> 2, z >> 3, 5);
    ClearStep(z >> 1, z >> 2, 6);
    ClearStep(z, z >> 1, 7);
  }

  function LowByte(x: bv32): bv8 {
    (x & 0xff) as bv8
  }

  function HighBytes(x: bv32): bv32 {
    x & 0xffffff00
  }

  lemma SplitLowByte(x: bv32)
    ensures Differ(x, LowByte(x) as bv32, HighBytes(x))
  {
  }

  lemma HighBytesBits(x: bv32)
    ensures HighBytes(x) & 0xff == 0
    ensures HighBytes(x) >> 8 == x >> 8
  {
  }

  lemma HighBytesMove(x: bv32)
    ensures Clear(HighBytes(x), 8) && Down(HighBytes(x), 8) == x >> 8
  {
    hide HighBytes, Clear, Down;
    HighBytesBits(x);
    ByteMoves(HighBytes(x));
  }

  /** Eight shifts of the whole register: the table entry of its low byte, and
      the other three bytes moved down. */
  lemma EightShifts(x: bv32)
    ensures Differ(Shifts(x, 8), Table(LowByte(x)), x >> 8)
  {
    hide Table, Shifts, Down, Clear, Differ, LowByte, HighBytes;
    SplitLowByte(x);
    HighBytesMove(x);
    TableEntry(LowByte(x));
    ShiftsDiffer(x, LowByte(x) as bv32, HighBytes(x), 8);
  }

  lemma HighBytesUntouched(c: bv32, b: bv8)
    ensures (c ^ (b as bv32)) >> 8 == c >> 8
  {
  }

  lemma TableByteRefinesReference(c: bv32, b: bv8)
    ensures TableByte(c, b) == ReferenceByte(c, b)
  {
    EightShifts(c ^ (b as bv32));
    HighBytesUntouched(c, b);
    hide Table, Shifts;
  }

  // ----- whole buffers

  /** The reference register over a split buffer: the second call continues from
      the value the first one returned. */
  lemma {:induction false} ReferenceSplit(c: bv32, a: seq<bv8>, b: seq<bv8>)
    ensures Reference(c, a + b) == Reference(Reference(c, a), b)
    decreases |a|
  {
    hide ReferenceByte;
    if a == [] {
      assert a + b == b;
    } else {
      assert (a + b)[1..] == a[1..] + b;
      ReferenceSplit(ReferenceByte(c, a[0]), a[1..], b);
    }
  }

  lemma ReferenceByteInjective(c: bv32, d: bv32, b: bv8)
    requires ReferenceByte(c, b) == ReferenceByte(d, b)
    ensures c == d
  {
    hide Shifts, Xor;
    ShiftsInjective(Xor(c, b as bv32), Xor(d, b as bv32), 8);
    XorInjective(b as bv32, c, d);
  }

  /** Equal bytes never merge two different registers. */
  lemma {:induction false} ReferenceInjective(c: bv32, d: bv32, s: seq<bv8>)
    requires Reference(c, s) == Reference(d, s)
    ensures c == d
    decreases |s|
  {
    hide ReferenceByte;
    if s != [] {
      ReferenceInjective(ReferenceByte(c, s[0]), ReferenceByte(d, s[0]), s[1..]);
      ReferenceByteInjective(c, d, s[0]);
    }
  }

  // ----- four bytes are one word

  /** Four bytes as one register-wide word, least significant byte first. */
  function Word(s: seq<bv8>): bv32
    requires |s| == 4
  {
    Xor(Xor(Xor(s[0] as bv32, (s[1] as bv32) << 8), (s[2] as bv32) << 16), (s[3] as bv32) << 24)
  }

  function WordBytes(w: bv32): (s: seq<bv8>)
    ensures |s| == 4
  {
    [(w & 0xff) as bv8, ((w >> 8) & 0xff) as bv8, ((w >> 16) & 0xff) as bv8, ((w >> 24) & 0xff) as bv8]
  }

  lemma WordOfBytes(w: bv32)
    ensures Word(WordBytes(w)) == w
  {
  }

  lemma WordParts(a0: bv8, a1: bv8, a2: bv8, a3: bv8, b0: bv8, b1: bv8, b2: bv8, b3: bv8)
    requires Xor(Xor(Xor(a0 as bv32, (a1 as bv32) << 8), (a2 as bv32) << 16), (a3 as bv32) << 24)
          == Xor(Xor(Xor(b0 as bv32, (b1 as bv32) << 8), (b2 as bv32) << 16), (b3 as bv32) << 24)
    ensures a0 == b0 && a1 == b1 && a2 == b2 && a3 == b3
  {
  }

  lemma FourBytes(a: seq<bv8>, b: seq<bv8>)
    requires |a| == |b| == 4 && a[0] == b[0] && a[1] == b[1] && a[2] == b[2] && a[3] == b[3]
    ensures a == b
  {
  }

  lemma WordInjective(a: seq<bv8>, b: seq<bv8>)
    requires |a| == |b| == 4 && Word(a) == Word(b)
    ensures a == b
  {
    hide Xor;
    WordParts(a[0], a[1], a[2], a[3], b[0], b[1], b[2], b[3]);
    FourBytes(a, b);
  }

  lemma {:induction false} DownCompose(z: bv32, m: nat, n: nat)
    requires Clear(z, m) && Clear(Down(z, m), n)
    ensures Clear(z, m + n) && Down(z, m + n) == Down(Down(z, m), n)
    decreases m
  {
    hide Even, Half;
    if m > 0 {
      DownCompose(Half(z), m - 1, n);
    }
  }

  lemma LiftedByte(b: bv8)
    ensures var z := b as bv32;
            && (z << 8) & 0xff == 0 && (z << 8) >> 8 == z
            && (z << 16) & 0xff == 0 && (z << 16) >> 8 == z << 8
            && (z << 24) & 0xff == 0 && (z << 24) >> 8 == z << 16
  {
  }

  /** A byte placed `n` bits up arrives at the low end after `n` shifts. */
  lemma LiftedByteArrives(b: bv8)
    ensures var z := b as bv32;
            && Clear(z << 8, 8) && Down(z << 8, 8) == z
            && Clear(z << 16, 16) && Down(z << 16, 16) == z
            && Clear(z << 24, 24) && Down(z << 24, 24) == z
  {
    hide Clear, Down;
    var z := b as bv32;
    LiftedByte(b);
    ByteMoves(z << 8);
    ByteMoves(z << 16);
    ByteMoves(z << 24);
    DownCompose(z << 16, 8, 8);
    DownCompose(z << 24, 8, 16);
  }

  lemma DifferXor(y: bv32, x: bv32, z: bv32)
    ensures Differ(y, x, z) <==> y == Xor(x, z)
  {
  }

  /** A byte fed after `n` shifts might as well have been in the register, `n`
      bits higher, before them. */
  lemma FeedLater(x: bv32, z: bv32, n: nat, b: bv8)
    requires Clear(z, n) && Down(z, n) == b as bv32
    ensures ReferenceByte(Shifts(x, n), b) == Shifts(Xor(x, z), n + 8)
  {
    hide Shifts, Down, Clear, Differ, Xor;
    var y := Xor(x, z);
    DifferXor(y, x, z);
    ShiftsDiffer(y, x, z, n);
    DifferXor(Shifts(y, n), Shifts(x, n), b as bv32);
    ShiftsCompose(y, n, 8);
  }

  lemma XorAssociative(a: bv32, b: bv32, c: bv32)
    ensures Xor(Xor(a, b), c) == Xor(a, Xor(b, c))
  {
  }

  /** Laying four bytes over a register one by one is laying their word over it. */
  lemma OverlaidWord(c: bv32, s: seq<bv8>)
    requires |s| == 4
    ensures Xor(Xor(Xor(Xor(c, s[0] as bv32), (s[1] as bv32) << 8), (s[2] as bv32) << 16), (s[3] as bv32) << 24)
         == Xor(c, Word(s))
  {
    hide Xor;
    var w0, w1, w2, w3 := s[0] as bv32, (s[1] as bv32) << 8, (s[2] as bv32) << 16, (s[3] as bv32) << 24;
    XorAssociative(c, w0, w1);
    XorAssociative(c, Xor(w0, w1), w2);
    XorAssociative(c, Xor(Xor(w0, w1), w2), w3);
  }

  lemma ReferenceFour(c: bv32, s: seq<bv8>)
    requires |s| == 4
    ensures Reference(c, s)
         == ReferenceByte(ReferenceByte(ReferenceByte(ReferenceByte(c, s[0]), s[1]), s[2]), s[3])
  {
    hide ReferenceByte;
    var c1 := ReferenceByte(c, s[0]);
    var c2 := ReferenceByte(c1, s[1]);
    var c3 := ReferenceByte(c2, s[2]);
    assert Reference(c, s) == Reference(c1, s[1..]);
    assert Reference(c1, s[1..]) == Reference(c2, s[2..]) by { assert s[1..][1..] == s[2..]; }
    assert Reference(c2, s[2..]) == Reference(c3, s[3..]) by { assert s[2..][1..] == s[3..]; }
    assert s[3..] == [s[3]];
    assert Reference(c3, [s[3]]) == Reference(ReferenceByte(c3, s[3]), []) by { assert [s[3]][1..] == []; }
  }

  /** Four bytes through the register are one xor with their word and 32 shifts. */
  lemma ReferenceWord(c: bv32, s: seq<bv8>)
    requires |s| == 4
    ensures Reference(c, s) == Shifts(Xor(c, Word(s)), 32)
  {
    hide Word, Shifts, Xor, Clear, Down;
    var x0 := Xor(c, s[0] as bv32);
    var x1 := Xor(x0, (s[1] as bv32) << 8);
    var x2 := Xor(x1, (s[2] as bv32) << 16);
    ReferenceFour(c, s);
    LiftedByteArrives(s[1]);
    FeedLater(x0, (s[1] as bv32) << 8, 8, s[1]);
    LiftedByteArrives(s[2]);
    FeedLater(x1, (s[2] as bv32) << 16, 16, s[2]);
    LiftedByteArrives(s[3]);
    FeedLater(x2, (s[3] as bv32) << 24, 24, s[3]);
    OverlaidWord(c, s);
  }

  // ----- what the register detects

  /** Two inputs of equal length that agree except inside one window of four
      consecutive bytes. */
  ghost predicate DifferInWindow(s: seq<bv8>, t: seq<bv8>, at: nat) {
    && |s| == |t|
    && at + 4 <= |s|
    && s[..at] == t[..at]
    && s[at + 4..] == t[at + 4..]
  }

  lemma ThreeParts(c: bv32, s: seq<bv8>, at: nat)
    requires at + 4 <= |s|
    ensures Reference(c, s) == Reference(Reference(Reference(c, s[..at]), s[at..at + 4]), s[at + 4..])
  {
    assert s == s[..at] + s[at..];
    ReferenceSplit(c, s[..at], s[at..]);
    assert s[at..] == s[at..at + 4] + s[at + 4..];
    ReferenceSplit(Reference(c, s[..at]), s[at..at + 4], s[at + 4..]);
  }

  lemma XorInjective(c: bv32, v: bv32, w: bv32)
    requires Xor(c, v) == Xor(c, w) || Xor(v, c) == Xor(w, c)
    ensures v == w
  {
  }

  lemma WindowInjective(c: bv32, v: seq<bv8>, w: seq<bv8>)
    requires |v| == |w| == 4 && Reference(c, v) == Reference(c, w)
    ensures v == w
  {
    hide Shifts, ReferenceByte, Word, Xor;
    ReferenceWord(c, v);
    ReferenceWord(c, w);
    ShiftsInjective(Xor(c, Word(v)), Xor(c, Word(w)), 32);
    XorInjective(c, Word(v), Word(w));
    WordInjective(v, w);
  }

  lemma SameCrcSameWindow(c: bv32, s: seq<bv8>, t: seq<bv8>, at: nat)
    requires DifferInWindow(s, t, at)
    requires Reference(c, s) == Reference(c, t)
    ensures s == t
  {
    hide Reference;
    ThreeParts(c, s, at);
    ThreeParts(c, t, at);
    var c1 := Reference(c, s[..at]);
    var v, w := s[at..at + 4], t[at..at + 4];
    ReferenceInjective(Reference(c1, v), Reference(c1, w), s[at + 4..]);
    WindowInjective(c1, v, w);
    assert s == s[..at] + v + s[at + 4..];
    assert t == t[..at] + w + t[at + 4..];
  }

  /** Burst detection: a change confined to any four consecutive bytes always
      changes the CRC. */
  lemma BurstDetected(c: bv32, s: seq<bv8>, t: seq<bv8>, at: nat)
    requires DifferInWindow(s, t, at)
    requires s != t
    ensures Reference(c, s) != Reference(c, t)
  {
    hide Reference;
    if Reference(c, s) == Reference(c, t) {
      SameCrcSameWindow(c, s, t, at);
    }
  }

  lemma XorSelf(w: bv32)
    ensures Xor(w, w) == 0
  {
  }

  lemma XorZero(c: bv32, w: bv32)
    ensures Xor(c, w) == 0 <==> c == w
  {
    hide Xor;
    XorSelf(w);
    if Xor(c, w) == 0 {
      XorInjective(w, c, w);
    }
  }

  /** Residue: four bytes return the register to zero exactly when they are the
      register itself, least significant byte first. */
  lemma Residue(c: bv32, s: seq<bv8>)
    requires |s| == 4
    ensures Reference(c, s) == 0 <==> s == WordBytes(c)
  {
    hide Shifts, Word, WordBytes, Xor;
    ReferenceWord(c, s);
    ShiftsOfZero(32);
    XorZero(c, Word(s));
    WordOfBytes(c);
    if Reference(c, s) == 0 {
      ShiftsInjective(Xor(c, Word(s)), 0, 32);
      WordInjective(s, WordBytes(c));
    }
  }

  // ----- the check value

  lemma NextByte(c: bv32, s: seq<bv8>, i: nat)
    requires i < |s|
    ensures Reference(c, s[i..]) == Reference(ReferenceByte(c, s[i]), s[i + 1..])
  {
    hide ReferenceByte;
    assert s[i..][1..] == s[i + 1..];
  }

  /** The register after each of the digits 1 to 9. */
  lemma CheckRegisters()
    ensures ReferenceByte(INITIAL, 0x31) == 0x7c23_1048 && ReferenceByte(0x7c23_1048, 0x32) == 0xb0ac_bb32
    ensures ReferenceByte(0xb0ac_bb32, 0x33) == 0x77b7_9c2d && ReferenceByte(0x77b7_9c2d, 0x34) == 0x641c_1f5c
    ensures ReferenceByte(0x641c_1f5c, 0x35) == 0x340a_c5e3 && ReferenceByte(0x340a_c5e3, 0x36) == 0xf68d_2c9e
    ensures ReferenceByte(0xf68d_2c9e, 0x37) == 0xaffc_9660 && ReferenceByte(0xaffc_9660, 0x38) == 0x651f_2550
    ensures ReferenceByte(0x651f_2550, 0x39) == 0x340b_c6d9
  {
  }

  /** The check value of CRC-32, 0xcbf43926, before its bits are inverted, which the program
      leaves out. */
  lemma CheckValue()
    ensures Reference(INITIAL, [0x31, 0x32, 0x33, 0x34, 0x35, 0x36, 0x37, 0x38, 0x39]) == 0x340b_c6d9
  {
    hide ReferenceByte, Reference;
    var s: seq<bv8> := [0x31, 0x32, 0x33, 0x34, 0x35, 0x36, 0x37, 0x38, 0x39];
    CheckRegisters();
    assert s[0..] == s && s[9..] == [];
    NextByte(INITIAL, s, 0);
    NextByte(0x7c23_1048, s, 1);
    NextByte(0xb0ac_bb32, s, 2);
    NextByte(0x77b7_9c2d, s, 3);
    NextByte(0x641c_1f5c, s, 4);
    NextByte(0x340a_c5e3, s, 5);
    NextByte(0xf68d_2c9e, s, 6);
    NextByte(0xaffc_9660, s, 7);
    NextByte(0x651f_2550, s, 8);
    NoBytes(0x340b_c6d9);
  }

  lemma NoBytes(c: bv32)
    ensures Reference(c, []) == c
  {
  }

  // ----- the writer

  /** A file opened for writing. */
  class OutputFile {
    var contents: seq<bv8>

    constructor ()
      ensures contents == []
    {
      contents := [];
    }
  }

  /** Appends a buffer to the file and returns the register after it. */
  method WriteCrc(f: OutputFile, crc: bv32, buf: seq<bv8>) returns (result: bv32)
    modifies f
    ensures f.contents == old(f.contents) + buf
    ensures result == Reference(crc, buf)
  {
    result := crc;
    for x := 0 to |buf|
      invariant result == Reference(crc, buf[..x])
      invariant f.contents == old(f.contents)
    {
      hide ReferenceByte, TableByte;
      TableByteRefinesReference(result, buf[x]);
      assert buf[..x + 1] == buf[..x] + [buf[x]];
      ReferenceSplit(crc, buf[..x], [buf[x]]);
      assert [buf[x]][1..] == [];
      result := TableByte(result, buf[x]);
    }
    assert buf[..|buf|] == buf;
    f.contents := f.contents + buf;
  }
}
