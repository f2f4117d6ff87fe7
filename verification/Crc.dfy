/** The checksum that hashes the keys of the hash map (sys/include/lib/hashmap.h): a table-driven
    CRC32C with initial value zero and no final inversion. */
module Crc {

  // ---------- the bitwise division ----------

  /** The CRC32C polynomial of section 12.1 of RFC 3720 without its leading term, and the same with
      its bits reflected. */
  const POLYNOMIAL: bv32 := 0x1EDC6F41
  const REFLECTED: bv32 := 0x82F63B78

  /** Bit i of a becomes bit 31 - i. */
  function Reverse(a: bv32): bv32 {
    var b := ((a >> 1) & 0x55555555) | ((a & 0x55555555) << 1);
    var c := ((b >> 2) & 0x33333333) | ((b & 0x33333333) << 2);
    var d := ((c >> 4) & 0x0F0F0F0F) | ((c & 0x0F0F0F0F) << 4);
    var e := ((d >> 8) & 0x00FF00FF) | ((d & 0x00FF00FF) << 8);
    (e >> 16) | (e << 16)
  }

  lemma ReflectedPolynomial()
    ensures Reverse(POLYNOMIAL) == REFLECTED
  {
  }

  /** One step of the division: the remainder's lowest bit, its highest power, is divided out. */
  function Step(c: bv32): bv32 {
    if c & 1 == 1 then (c >> 1) ^ REFLECTED else c >> 1
  }

  /** f applied n times. */
  function Iterate<T>(f: T -> T, c: T, n: nat): T {
    if n == 0 then c else Iterate(f, f(c), n - 1)
  }

  function Steps(c: bv32, n: nat): bv32 {
    Iterate(Step, c, n)
  }

  /** The division with the next message bit brought in. */
  function Feed(c: bv32, bit: bool): bv32 {
    Step(Added(c, bit))
  }

  function Added(c: bv32, bit: bool): bv32 {
    if bit then c ^ 1 else c
  }

  /** The remainder after a message of bits, the first bit first. */
  function Divide(c: bv32, bits: seq<bool>): bv32
    decreases bits
  {
    if bits == [] then c else Divide(Feed(c, bits[0]), bits[1..])
  }

  /** The bits of a byte from the lowest, and of a string. */
  function BitsOf(b: bv8, n: nat): seq<bool>
    decreases n
  {
    if n == 0 then [] else [LowBitOf(b)] + BitsOf(Half(b), n - 1)
  }

  function Message(s: seq<bv8>): seq<bool> {
    if s == [] then [] else BitsOf(s[0], 8) + Message(s[1..])
  }

  /** Bit j of a byte. */
  predicate BitOfByte(b: bv8, j: nat)
    requires j < 8
  {
    (b >> j) & 1 == 1
  }

  lemma {:induction false} BitOfBits(b: bv8, n: nat, j: nat)
    requires j < n <= 8
    ensures |BitsOf(b, n)| == n && (BitsOf(b, n)[j] <==> BitOfByte(b, j))
    decreases n
  {
    if j > 0 {
      BitOfBits(Half(b), n - 1, j - 1);
      ShiftAgain(b, j);
    } else {
      BitsLength(b, n);
    }
  }

  lemma {:induction false} BitsLength(b: bv8, n: nat)
    ensures |BitsOf(b, n)| == n
    decreases n
  {
    if n > 0 { BitsLength(Half(b), n - 1); }
  }

  lemma ShiftAgain(b: bv8, j: nat)
    requires 0 < j < 8
    ensures (b >> 1) >> (j - 1) == b >> j
  {
  }

  /** Eight bits are in the message of a string at place 8 * i. */
  ghost predicate BitsInPlace(s: seq<bv8>, i: nat, bits: seq<bool>) {
    && i < |s| && |Message(s)| == 8 * |s| && |bits| == 8
    && forall j :: 0 <= j < 8 ==> Message(s)[8 * i + j] == bits[j]
  }

  lemma {:induction false} MessageBytes(s: seq<bv8>, i: nat, bits: seq<bool>)
    requires i < |s| && bits == BitsOf(s[i], 8)
    ensures BitsInPlace(s, i, bits)
    decreases s
  {
    MessageLength(s);
    var first, rest := FirstBits(s);
    if i == 0 {
      FirstByte(s, first, rest);
    } else {
      MessageBytes(s[1..], i - 1, bits);
      LaterByte(s, i, bits, first);
    }
  }

  lemma FirstBits(s: seq<bv8>) returns (first: seq<bool>, rest: seq<bool>)
    requires s != []
    ensures first == BitsOf(s[0], 8) && |first| == 8 && rest == Message(s[1..]) && Message(s) == first + rest
  {
    BitsLength(s[0], 8);
    first, rest := BitsOf(s[0], 8), Message(s[1..]);
  }

  lemma FirstByte(s: seq<bv8>, bits: seq<bool>, rest: seq<bool>)
    requires s != [] && |Message(s)| == 8 * |s| && |bits| == 8 && Message(s) == bits + rest
    ensures BitsInPlace(s, 0, bits)
  {
    forall j: nat | j < 8 ensures Message(s)[j] == bits[j] { InFirst(bits, rest, j); }
  }

  lemma LaterByte(s: seq<bv8>, i: nat, bits: seq<bool>, first: seq<bool>)
    requires 0 < i < |s| && |Message(s)| == 8 * |s| && |first| == 8 && Message(s) == first + Message(s[1..])
    requires BitsInPlace(s[1..], i - 1, bits)
    ensures BitsInPlace(s, i, bits)
  {
    forall j: nat | j < 8 ensures Message(s)[8 * i + j] == bits[j] {
      InSecond(first, Message(s[1..]), 8 * (i - 1) + j);
    }
  }

  lemma InFirst<T>(x: seq<T>, y: seq<T>, k: nat)
    requires k < |x|
    ensures (x + y)[k] == x[k]
  {
  }

  lemma InSecond<T>(x: seq<T>, y: seq<T>, k: nat)
    requires k < |y|
    ensures (x + y)[|x| + k] == y[k]
  {
  }

  /** The message of a string: eight bits for every byte, the lowest first. */
  lemma MessageBits(s: seq<bv8>, i: nat, j: nat)
    requires i < |s| && j < 8
    ensures |Message(s)| == 8 * |s| && (Message(s)[8 * i + j] <==> BitOfByte(s[i], j))
  {
    BitOfBits(s[i], 8, j);
    MessageBytes(s, i, BitsOf(s[i], 8));
  }

  lemma {:induction false} MessageLength(s: seq<bv8>)
    ensures |Message(s)| == 8 * |s|
    decreases s
  {
    if s != [] {
      BitsLength(s[0], 8);
      MessageLength(s[1..]);
    }
  }

  // ---------- the division is linear ----------

  function Xor(a: bv32, b: bv32): bv32 {
    a ^ b
  }

  lemma ShrXor(a: bv32, b: bv32)
    ensures (a ^ b) >> 1 == (a >> 1) ^ (b >> 1)
  {
  }

  lemma LowBitXor(a: bv32, b: bv32)
    ensures (a ^ b) & 1 == (a & 1) ^ (b & 1)
  {
  }

  lemma LowBit(a: bv32)
    ensures a & 1 == 0 || a & 1 == 1
  {
  }

  lemma XorBoth(x: bv32, y: bv32, p: bv32)
    ensures (x ^ p) ^ (y ^ p) == x ^ y
  {
  }

  lemma XorLeft(x: bv32, y: bv32, p: bv32)
    ensures (x ^ p) ^ y == (x ^ y) ^ p
  {
  }

  lemma XorRight(x: bv32, y: bv32, p: bv32)
    ensures x ^ (y ^ p) == (x ^ y) ^ p
  {
  }

  lemma StepLinear(a: bv32, b: bv32)
    ensures Step(a ^ b) == Step(a) ^ Step(b)
  {
    ShrXor(a, b);
    LowBitXor(a, b);
    LowBit(a);
    LowBit(b);
    XorBoth(a >> 1, b >> 1, REFLECTED);
    XorLeft(a >> 1, b >> 1, REFLECTED);
    XorRight(a >> 1, b >> 1, REFLECTED);
  }

  ghost predicate Linear(f: bv32 -> bv32) {
    forall x: bv32, y: bv32 {:trigger f(Xor(x, y))} :: f(Xor(x, y)) == Xor(f(x), f(y))
  }

  lemma StepIsLinear()
    ensures Linear(Step)
  {
    forall x: bv32, y: bv32 ensures Step(Xor(x, y)) == Xor(Step(x), Step(y)) { StepLinear(x, y); }
  }

  /** Iterating a linear function is linear, whatever the addition. */
  lemma {:induction false} IterateLinear<T(!new)>(f: T -> T, add: (T, T) -> T, a: T, b: T, n: nat)
    requires forall x, y {:trigger add(f(x), f(y))} {:trigger f(add(x, y))} :: f(add(x, y)) == add(f(x), f(y))
    ensures Iterate(f, add(a, b), n) == add(Iterate(f, a, n), Iterate(f, b, n))
    decreases n
  {
    if n > 0 { IterateLinear(f, add, f(a), f(b), n - 1); }
  }

  // ---------- the table ----------

  /** crc32_tab, in rows of sixteen. */
  const TAB_0: seq<bv32> :=
    [0x00000000, 0xF26B8303, 0xE13B70F7, 0x1350F3F4, 0xC79A971F, 0x35F1141C, 0x26A1E7E8, 0xD4CA64EB,
     0x8AD958CF, 0x78B2DBCC, 0x6BE22838, 0x9989AB3B, 0x4D43CFD0, 0xBF284CD3, 0xAC78BF27, 0x5E133C24]
  const TAB_1: seq<bv32> :=
    [0x105EC76F, 0xE235446C, 0xF165B798, 0x030E349B, 0xD7C45070, 0x25AFD373, 0x36FF2087, 0xC494A384,
     0x9A879FA0, 0x68EC1CA3, 0x7BBCEF57, 0x89D76C54, 0x5D1D08BF, 0xAF768BBC, 0xBC267848, 0x4E4DFB4B]
  const TAB_2: seq<bv32> :=
    [0x20BD8EDE, 0xD2D60DDD, 0xC186FE29, 0x33ED7D2A, 0xE72719C1, 0x154C9AC2, 0x061C6936, 0xF477EA35,
     0xAA64D611, 0x580F5512, 0x4B5FA6E6, 0xB93425E5, 0x6DFE410E, 0x9F95C20D, 0x8CC531F9, 0x7EAEB2FA]
  const TAB_3: seq<bv32> :=
    [0x30E349B1, 0xC288CAB2, 0xD1D83946, 0x23B3BA45, 0xF779DEAE, 0x05125DAD, 0x1642AE59, 0xE4292D5A,
     0xBA3A117E, 0x4851927D, 0x5B016189, 0xA96AE28A, 0x7DA08661, 0x8FCB0562, 0x9C9BF696, 0x6EF07595]
  const TAB_4: seq<bv32> :=
    [0x417B1DBC, 0xB3109EBF, 0xA0406D4B, 0x522BEE48, 0x86E18AA3, 0x748A09A0, 0x67DAFA54, 0x95B17957,
     0xCBA24573, 0x39C9C670, 0x2A993584, 0xD8F2B687, 0x0C38D26C, 0xFE53516F, 0xED03A29B, 0x1F682198]
  const TAB_5: seq<bv32> :=
    [0x5125DAD3, 0xA34E59D0, 0xB01EAA24, 0x42752927, 0x96BF4DCC, 0x64D4CECF, 0x77843D3B, 0x85EFBE38,
     0xDBFC821C, 0x2997011F, 0x3AC7F2EB, 0xC8AC71E8, 0x1C661503, 0xEE0D9600, 0xFD5D65F4, 0x0F36E6F7]
  const TAB_6: seq<bv32> :=
    [0x61C69362, 0x93AD1061, 0x80FDE395, 0x72966096, 0xA65C047D, 0x5437877E, 0x4767748A, 0xB50CF789,
     0xEB1FCBAD, 0x197448AE, 0x0A24BB5A, 0xF84F3859, 0x2C855CB2, 0xDEEEDFB1, 0xCDBE2C45, 0x3FD5AF46]
  const TAB_7: seq<bv32> :=
    [0x7198540D, 0x83F3D70E, 0x90A324FA, 0x62C8A7F9, 0xB602C312, 0x44694011, 0x5739B3E5, 0xA55230E6,
     0xFB410CC2, 0x092A8FC1, 0x1A7A7C35, 0xE811FF36, 0x3CDB9BDD, 0xCEB018DE, 0xDDE0EB2A, 0x2F8B6829]
  const TAB_8: seq<bv32> :=
    [0x82F63B78, 0x709DB87B, 0x63CD4B8F, 0x91A6C88C, 0x456CAC67, 0xB7072F64, 0xA457DC90, 0x563C5F93,
     0x082F63B7, 0xFA44E0B4, 0xE9141340, 0x1B7F9043, 0xCFB5F4A8, 0x3DDE77AB, 0x2E8E845F, 0xDCE5075C]
  const TAB_9: seq<bv32> :=
    [0x92A8FC17, 0x60C37F14, 0x73938CE0, 0x81F80FE3, 0x55326B08, 0xA759E80B, 0xB4091BFF, 0x466298FC,
     0x1871A4D8, 0xEA1A27DB, 0xF94AD42F, 0x0B21572C, 0xDFEB33C7, 0x2D80B0C4, 0x3ED04330, 0xCCBBC033]
  const TAB_A: seq<bv32> :=
    [0xA24BB5A6, 0x502036A5, 0x4370C551, 0xB11B4652, 0x65D122B9, 0x97BAA1BA, 0x84EA524E, 0x7681D14D,
     0x2892ED69, 0xDAF96E6A, 0xC9A99D9E, 0x3BC21E9D, 0xEF087A76, 0x1D63F975, 0x0E330A81, 0xFC588982]
  const TAB_B: seq<bv32> :=
    [0xB21572C9, 0x407EF1CA, 0x532E023E, 0xA145813D, 0x758FE5D6, 0x87E466D5, 0x94B49521, 0x66DF1622,
     0x38CC2A06, 0xCAA7A905, 0xD9F75AF1, 0x2B9CD9F2, 0xFF56BD19, 0x0D3D3E1A, 0x1E6DCDEE, 0xEC064EED]
  const TAB_C: seq<bv32> :=
    [0xC38D26C4, 0x31E6A5C7, 0x22B65633, 0xD0DDD530, 0x0417B1DB, 0xF67C32D8, 0xE52CC12C, 0x1747422F,
     0x49547E0B, 0xBB3FFD08, 0xA86F0EFC, 0x5A048DFF, 0x8ECEE914, 0x7CA56A17, 0x6FF599E3, 0x9D9E1AE0]
  const TAB_D: seq<bv32> :=
    [0xD3D3E1AB, 0x21B862A8, 0x32E8915C, 0xC083125F, 0x144976B4, 0xE622F5B7, 0xF5720643, 0x07198540,
     0x590AB964, 0xAB613A67, 0xB831C993, 0x4A5A4A90, 0x9E902E7B, 0x6CFBAD78, 0x7FAB5E8C, 0x8DC0DD8F]
  const TAB_E: seq<bv32> :=
    [0xE330A81A, 0x115B2B19, 0x020BD8ED, 0xF0605BEE, 0x24AA3F05, 0xD6C1BC06, 0xC5914FF2, 0x37FACCF1,
     0x69E9F0D5, 0x9B8273D6, 0x88D28022, 0x7AB90321, 0xAE7367CA, 0x5C18E4C9, 0x4F48173D, 0xBD23943E]
  const TAB_F: seq<bv32> :=
    [0xF36E6F75, 0x0105EC76, 0x12551F82, 0xE03E9C81, 0x34F4F86A, 0xC69F7B69, 0xD5CF889D, 0x27A40B9E,
     0x79B737BA, 0x8BDCB4B9, 0x988C474D, 0x6AE7C44E, 0xBE2DA0A5, 0x4C4623A6, 0x5F16D052, 0xAD7D5351]

  /** crc32_tab[i] */
  function Tab(i: bv8): bv32 {
    if i < 16 then TAB_0[i as int]
    else if i < 32 then TAB_1[i as int - 16]
    else if i < 48 then TAB_2[i as int - 32]
    else if i < 64 then TAB_3[i as int - 48]
    else if i < 80 then TAB_4[i as int - 64]
    else if i < 96 then TAB_5[i as int - 80]
    else if i < 112 then TAB_6[i as int - 96]
    else if i < 128 then TAB_7[i as int - 112]
    else if i < 144 then TAB_8[i as int - 128]
    else if i < 160 then TAB_9[i as int - 144]
    else if i < 176 then TAB_A[i as int - 160]
    else if i < 192 then TAB_B[i as int - 176]
    else if i < 208 then TAB_C[i as int - 192]
    else if i < 224 then TAB_D[i as int - 208]
    else if i < 240 then TAB_E[i as int - 224]
    else TAB_F[i as int - 240]
  }

  /** Entry i is the remainder of the byte i. */
  lemma TableEntry(i: bv8)
    ensures Tab(i) == Steps(i as bv32, 8)
  {
    if i < 16 { Row0(i); }
    else if i < 32 { Row1(i); }
    else if i < 48 { Row2(i); }
    else if i < 64 { Row3(i); }
    else if i < 80 { Row4(i); }
    else if i < 96 { Row5(i); }
    else if i < 112 { Row6(i); }
    else if i < 128 { Row7(i); }
    else if i < 144 { Row8(i); }
    else if i < 160 { Row9(i); }
    else if i < 176 { RowA(i); }
    else if i < 192 { RowB(i); }
    else if i < 208 { RowC(i); }
    else if i < 224 { RowD(i); }
    else if i < 240 { RowE(i); }
    else { RowF(i); }
  }

  lemma Row0(i: bv8)
    requires i < 16
    ensures TAB_0[i as int] == Steps(i as bv32, 8)
  {
    match i {
      case 0 => case 1 => case 2 => case 3 => case 4 => case 5 =>
      case 6 => case 7 => case 8 => case 9 => case 10 => case 11 =>
      case 12 => case 13 => case 14 => case _ =>
    }
  }

  lemma Row1(i: bv8)
    requires 16 <= i < 32
    ensures TAB_1[i as int - 16] == Steps(i as bv32, 8)
  {
    match i {
      case 16 => case 17 => case 18 => case 19 => case 20 => case 21 =>
      case 22 => case 23 => case 24 => case 25 => case 26 => case 27 =>
      case 28 => case 29 => case 30 => case _ =>
    }
  }

  lemma Row2(i: bv8)
    requires 32 <= i < 48
    ensures TAB_2[i as int - 32] == Steps(i as bv32, 8)
  {
    match i {
      case 32 => case 33 => case 34 => case 35 => case 36 => case 37 =>
      case 38 => case 39 => case 40 => case 41 => case 42 => case 43 =>
      case 44 => case 45 => case 46 => case _ =>
    }
  }

  lemma Row3(i: bv8)
    requires 48 <= i < 64
    ensures TAB_3[i as int - 48] == Steps(i as bv32, 8)
  {
    match i {
      case 48 => case 49 => case 50 => case 51 => case 52 => case 53 =>
      case 54 => case 55 => case 56 => case 57 => case 58 => case 59 =>
      case 60 => case 61 => case 62 => case _ =>
    }
  }

  lemma Row4(i: bv8)
    requires 64 <= i < 80
    ensures TAB_4[i as int - 64] == Steps(i as bv32, 8)
  {
    match i {
      case 64 => case 65 => case 66 => case 67 => case 68 => case 69 =>
      case 70 => case 71 => case 72 => case 73 => case 74 => case 75 =>
      case 76 => case 77 => case 78 => case _ =>
    }
  }

  lemma Row5(i: bv8)
    requires 80 <= i < 96
    ensures TAB_5[i as int - 80] == Steps(i as bv32, 8)
  {
    match i {
      case 80 => case 81 => case 82 => case 83 => case 84 => case 85 =>
      case 86 => case 87 => case 88 => case 89 => case 90 => case 91 =>
      case 92 => case 93 => case 94 => case _ =>
    }
  }

  lemma Row6(i: bv8)
    requires 96 <= i < 112
    ensures TAB_6[i as int - 96] == Steps(i as bv32, 8)
  {
    match i {
      case 96 => case 97 => case 98 => case 99 => case 100 => case 101 =>
      case 102 => case 103 => case 104 => case 105 => case 106 => case 107 =>
      case 108 => case 109 => case 110 => case _ =>
    }
  }

  lemma Row7(i: bv8)
    requires 112 <= i < 128
    ensures TAB_7[i as int - 112] == Steps(i as bv32, 8)
  {
    match i {
      case 112 => case 113 => case 114 => case 115 => case 116 => case 117 =>
      case 118 => case 119 => case 120 => case 121 => case 122 => case 123 =>
      case 124 => case 125 => case 126 => case _ =>
    }
  }

  lemma Row8(i: bv8)
    requires 128 <= i < 144
    ensures TAB_8[i as int - 128] == Steps(i as bv32, 8)
  {
    match i {
      case 128 => case 129 => case 130 => case 131 => case 132 => case 133 =>
      case 134 => case 135 => case 136 => case 137 => case 138 => case 139 =>
      case 140 => case 141 => case 142 => case _ =>
    }
  }

  lemma Row9(i: bv8)
    requires 144 <= i < 160
    ensures TAB_9[i as int - 144] == Steps(i as bv32, 8)
  {
    match i {
      case 144 => case 145 => case 146 => case 147 => case 148 => case 149 =>
      case 150 => case 151 => case 152 => case 153 => case 154 => case 155 =>
      case 156 => case 157 => case 158 => case _ =>
    }
  }

  lemma RowA(i: bv8)
    requires 160 <= i < 176
    ensures TAB_A[i as int - 160] == Steps(i as bv32, 8)
  {
    match i {
      case 160 => case 161 => case 162 => case 163 => case 164 => case 165 =>
      case 166 => case 167 => case 168 => case 169 => case 170 => case 171 =>
      case 172 => case 173 => case 174 => case _ =>
    }
  }

  lemma RowB(i: bv8)
    requires 176 <= i < 192
    ensures TAB_B[i as int - 176] == Steps(i as bv32, 8)
  {
    match i {
      case 176 => case 177 => case 178 => case 179 => case 180 => case 181 =>
      case 182 => case 183 => case 184 => case 185 => case 186 => case 187 =>
      case 188 => case 189 => case 190 => case _ =>
    }
  }

  lemma RowC(i: bv8)
    requires 192 <= i < 208
    ensures TAB_C[i as int - 192] == Steps(i as bv32, 8)
  {
    match i {
      case 192 => case 193 => case 194 => case 195 => case 196 => case 197 =>
      case 198 => case 199 => case 200 => case 201 => case 202 => case 203 =>
      case 204 => case 205 => case 206 => case _ =>
    }
  }

  lemma RowD(i: bv8)
    requires 208 <= i < 224
    ensures TAB_D[i as int - 208] == Steps(i as bv32, 8)
  {
    match i {
      case 208 => case 209 => case 210 => case 211 => case 212 => case 213 =>
      case 214 => case 215 => case 216 => case 217 => case 218 => case 219 =>
      case 220 => case 221 => case 222 => case _ =>
    }
  }

  lemma RowE(i: bv8)
    requires 224 <= i < 240
    ensures TAB_E[i as int - 224] == Steps(i as bv32, 8)
  {
    match i {
      case 224 => case 225 => case 226 => case 227 => case 228 => case 229 =>
      case 230 => case 231 => case 232 => case 233 => case 234 => case 235 =>
      case 236 => case 237 => case 238 => case _ =>
    }
  }

  lemma RowF(i: bv8)
    requires 240 <= i
    ensures TAB_F[i as int - 240] == Steps(i as bv32, 8)
  {
    match i {
      case 240 => case 241 => case 242 => case 243 => case 244 => case 245 =>
      case 246 => case 247 => case 248 => case 249 => case 250 => case 251 =>
      case 252 => case 253 => case 254 => case _ =>
    }
  }

  // ---------- a byte at a time ----------

  lemma EvenStep(h: bv32, n: nat)
    requires h & 1 == 0 && n > 0
    ensures Steps(h, n) == Steps(h >> 1, n - 1)
  {
  }

  lemma EvenBytes(h: bv32)
    requires h & 0xFF == 0
    ensures h & 1 == 0 && (h >> 1) & 1 == 0 && (h >> 2) & 1 == 0 && (h >> 3) & 1 == 0
    ensures (h >> 4) & 1 == 0 && (h >> 5) & 1 == 0 && (h >> 6) & 1 == 0 && (h >> 7) & 1 == 0
  {
  }

  lemma ShiftOnce(h: bv32)
    ensures (h >> 1) >> 1 == h >> 2 && (h >> 2) >> 1 == h >> 3 && (h >> 3) >> 1 == h >> 4 && (h >> 4) >> 1 == h >> 5
    ensures (h >> 5) >> 1 == h >> 6 && (h >> 6) >> 1 == h >> 7 && (h >> 7) >> 1 == h >> 8
  {
  }

  /** Eight steps shift out a low byte of zeros. */
  lemma HighSteps(h: bv32)
    requires h & 0xFF == 0
    ensures Steps(h, 8) == h >> 8
  {
    EvenBytes(h);
    ShiftOnce(h);
    EvenStep(h, 8);
    EvenStep(h >> 1, 7);
    EvenStep(h >> 2, 6);
    EvenStep(h >> 3, 5);
    EvenStep(h >> 4, 4);
    EvenStep(h >> 5, 3);
    EvenStep(h >> 6, 2);
    EvenStep(h >> 7, 1);
  }

  lemma SplitByte(c: bv32, b: bv8)
    ensures var i, h := ((c & 0xFF) as bv8) ^ b, c & 0xFFFF_FF00;
            && c ^ (b as bv32) == (i as bv32) ^ h
            && h & 0xFF == 0 && h >> 8 == c >> 8
  {
  }

  lemma SplitSum(f: bv32 -> bv32, x: bv32, l: bv32, h: bv32, r: bv32)
    requires Linear(f)
    requires Iterate(f, h, 8) == r && x == Xor(l, h)
    ensures Xor(Iterate(f, l, 8), r) == Iterate(f, x, 8)
  {
    IterateLinear(f, Xor, l, h, 8);
  }

  lemma SplitSteps(c: bv32, b: bv8)
    ensures Xor(Steps((((c & 0xFF) as bv8) ^ b) as bv32, 8), c >> 8) == Steps(c ^ (b as bv32), 8)
  {
    SplitByte(c, b);
    HighSteps(c & 0xFFFF_FF00);
    StepIsLinear();
    SplitSum(Step, c ^ (b as bv32), (((c & 0xFF) as bv8) ^ b) as bv32, c & 0xFFFF_FF00, c >> 8);
  }

  /** The bits of a byte, brought in one by one, are divided out like the byte at once. */
  lemma {:induction false} FeedBits(c: bv32, b: bv8, n: nat)
    requires Fits(b, n)
    ensures Steps(Xor(c, Word(b)), n) == Divide(c, BitsOf(b, n))
    decreases n
  {
    if n > 0 {
      FeedOne(c, b, n);
      FeedBits(Feed(c, LowBitOf(b)), Half(b), n - 1);
      assert BitsOf(b, n)[1..] == BitsOf(Half(b), n - 1);
    } else {
      XorZero(c, b);
    }
  }

  lemma XorZero(c: bv32, b: bv8)
    requires b == 0
    ensures Xor(c, Word(b)) == c
  {
  }

  predicate Fits(b: bv8, n: nat) {
    if n == 0 then b == 0 else Fits(Half(b), n - 1)
  }

  lemma FirstOf(f: bv32 -> bv32, x: bv32, r: bv32, s: bv32, q: bv32, n: nat)
    requires Linear(f)
    requires n > 0 && f(r) == q && s == Xor(x, r)
    ensures Iterate(f, s, n) == Iterate(f, Xor(f(x), q), n - 1)
  {
  }

  lemma FeedOne(c: bv32, b: bv8, n: nat)
    requires n > 0
    ensures Steps(Xor(c, Word(b)), n) == Steps(Xor(Feed(c, LowBitOf(b)), Word(Half(b))), n - 1)
  {
    StepIsLinear();
    SplitWord(c, b);
    StepOfHigh(b);
    FirstOf(Step, Added(c, LowBitOf(b)), HighBits(b), Xor(c, Word(b)), Word(Half(b)), n);
  }

  /** A byte as a word, the word of all its bits but the lowest, its lowest bit, and the others. */
  function Word(b: bv8): bv32 { b as bv32 }
  function HighBits(b: bv8): bv32 { (b as bv32) & 0xFE }
  function LowBitOf(b: bv8): bool { b & 1 == 1 }
  function Half(b: bv8): bv8 { b >> 1 }

  lemma SplitWord(c: bv32, b: bv8)
    ensures Xor(c, Word(b)) == Xor(Added(c, LowBitOf(b)), HighBits(b))
  {
    if LowBitOf(b) {
      OddWord(b);
      XorOne(c, HighBits(b));
      assert Added(c, true) == Xor(c, 1);
    } else {
      EvenWord(b);
    }
  }

  lemma OddWord(b: bv8)
    requires LowBitOf(b)
    ensures Word(b) == Xor(HighBits(b), 1)
  {
  }

  lemma EvenWord(b: bv8)
    requires !LowBitOf(b)
    ensures Word(b) == HighBits(b)
  {
  }

  lemma XorOne(c: bv32, h: bv32)
    ensures Xor(c, Xor(h, 1)) == Xor(Xor(c, 1), h)
  {
  }

  lemma StepOfHigh(b: bv8)
    ensures Step(HighBits(b)) == Word(Half(b))
  {
    HighBitsAreEven(b);
  }

  lemma HighBitsAreEven(b: bv8)
    ensures ((b as bv32) & 0xFE) & 1 == 0 && ((b as bv32) & 0xFE) >> 1 == (b >> 1) as bv32
  {
  }

  // ---------- whole strings ----------

  lemma {:induction false} DivideInTwo(c: bv32, x: seq<bool>, y: seq<bool>)
    ensures Divide(c, x + y) == Divide(Divide(c, x), y)
    decreases x
  {
    if x == [] {
      assert x + y == y;
    } else {
      assert (x + y)[1..] == x[1..] + y;
      DivideInTwo(Feed(c, x[0]), x[1..], y);
    }
  }

  lemma ByteFits(b: bv8)
    ensures Fits(b, 8)
  {
    var c := b >> 1 >> 1 >> 1;
    var d := c >> 1 >> 1 >> 1;
    assert d >> 1 >> 1 == 0;
    assert Fits(d, 2);
    assert Fits(c, 5);
  }

  lemma ByteDivided(c: bv32, s: seq<bv8>)
    requires s != []
    ensures Divide(c, Message(s)) == Divide(Steps(Xor(c, Word(s[0])), 8), Message(s[1..]))
  {
    ByteFits(s[0]);
    FeedBits(c, s[0], 8);
    DivideInTwo(c, BitsOf(s[0], 8), Message(s[1..]));
  }

  /** crc32_tab[i]: the remainder of the byte i */
  method TableAt(i: bv8) returns (e: bv32)
    ensures e == Steps(i as bv32, 8)
  {
    TableEntry(i);
    e := Tab(i);
  }

  method NextCrc(crc: bv32, b: bv8) returns (crc': bv32)
    ensures crc' == Steps(Xor(crc, Word(b)), 8)
  {
    SplitSteps(crc, b);
    var e := TableAt(((crc & 0xFF) as bv8) ^ b);
    crc' := Xor(e, crc >> 8);
  }

  /** hashmap_crc32_helper: the remainder of the string's bits */
  method Crc32(s: seq<bv8>) returns (crc: bv32)
    ensures crc == Divide(0, Message(s))
  {
    ghost var remainder := Divide(0, Message(s));
    crc := 0;
    var i := 0;
    assert s[0..] == s;
    while i < |s|
      invariant i <= |s| && remainder == Divide(crc, Message(s[i..]))
    {
      ByteDivided(crc, s[i..]);
      assert s[i..][0] == s[i] && s[i..][1..] == s[i + 1..];
      crc := NextCrc(crc, s[i]);
      i := i + 1;
    }
  }

  // ---------- the checksum is linear ----------

  function XorBits(x: seq<bool>, y: seq<bool>): (z: seq<bool>)
    requires |x| == |y|
    ensures |z| == |x|
  {
    if x == [] then [] else [x[0] != y[0]] + XorBits(x[1..], y[1..])
  }

  lemma {:induction false} XorBitsInTwo(x: seq<bool>, x': seq<bool>, y: seq<bool>, y': seq<bool>)
    requires |x| == |y| && |x'| == |y'|
    ensures XorBits(x + x', y + y') == XorBits(x, y) + XorBits(x', y')
    decreases x
  {
    if x == [] {
      assert x + x' == x' && y + y' == y';
    } else {
      XorBitsInTwo(x[1..], x', y[1..], y');
      assert (x + x')[1..] == x[1..] + x' && (y + y')[1..] == y[1..] + y';
    }
  }

  function XorBytes(s: seq<bv8>, t: seq<bv8>): seq<bv8>
    requires |s| == |t|
  {
    if s == [] then [] else [s[0] ^ t[0]] + XorBytes(s[1..], t[1..])
  }

  lemma LinearAt(f: bv32 -> bv32, u: bv32, v: bv32, w: bv32)
    requires Linear(f) && w == u ^ v
    ensures f(w) == Xor(f(u), f(v))
  {
    assert w == Xor(u, v);
  }

  lemma AddedBoth(f: bv32 -> bv32, a: bv32, b: bv32)
    requires Linear(f)
    ensures f(Added(a ^ b, false)) == Xor(f(Added(a, true)), f(Added(b, true)))
  {
    XorBoth(a, b, 1);
    LinearAt(f, a ^ 1, b ^ 1, a ^ b);
  }

  lemma SumLeft(f: bv32 -> bv32, a: bv32, b: bv32)
    requires Linear(f)
    ensures f((a ^ b) ^ 1) == Xor(f(a ^ 1), f(b))
  {
    XorLeft(a, b, 1);
    LinearAt(f, a ^ 1, b, (a ^ b) ^ 1);
  }

  lemma SumRight(f: bv32 -> bv32, a: bv32, b: bv32)
    requires Linear(f)
    ensures f((a ^ b) ^ 1) == Xor(f(a), f(b ^ 1))
  {
    XorRight(a, b, 1);
    LinearAt(f, a, b ^ 1, (a ^ b) ^ 1);
  }

  lemma AddedLeft(f: bv32 -> bv32, a: bv32, b: bv32)
    requires Linear(f)
    ensures f(Added(a ^ b, true)) == Xor(f(Added(a, true)), f(Added(b, false)))
  {
    SumLeft(f, a, b);
  }

  lemma AddedRight(f: bv32 -> bv32, a: bv32, b: bv32)
    requires Linear(f)
    ensures f(Added(a ^ b, true)) == Xor(f(Added(a, false)), f(Added(b, true)))
  {
    SumRight(f, a, b);
  }

  lemma AddedNeither(f: bv32 -> bv32, a: bv32, b: bv32)
    requires Linear(f)
    ensures f(Added(a ^ b, false)) == Xor(f(Added(a, false)), f(Added(b, false)))
  {
    LinearAt(f, a, b, a ^ b);
  }

  /** A bit brought in on either side of a sum. */
  lemma AddedIsLinear(f: bv32 -> bv32, a: bv32, b: bv32, p: bool, q: bool)
    requires Linear(f)
    ensures f(Added(a ^ b, p != q)) == Xor(f(Added(a, p)), f(Added(b, q)))
  {
    if p && q {
      AddedBoth(f, a, b);
    } else if p {
      AddedLeft(f, a, b);
    } else if q {
      AddedRight(f, a, b);
    } else {
      AddedNeither(f, a, b);
    }
  }

  lemma {:induction false} DivideLinear(a: bv32, b: bv32, x: seq<bool>, y: seq<bool>)
    requires |x| == |y|
    ensures Divide(Xor(a, b), XorBits(x, y)) == Xor(Divide(a, x), Divide(b, y))
    decreases x
  {
    if x != [] {
      StepIsLinear();
      AddedIsLinear(Step, a, b, x[0], y[0]);
      DivideLinear(Feed(a, x[0]), Feed(b, y[0]), x[1..], y[1..]);
      assert XorBits(x, y)[1..] == XorBits(x[1..], y[1..]);
    }
  }

  lemma ByteXor(a: bv8, b: bv8)
    ensures ((a ^ b) & 1 == 1) == ((a & 1 == 1) != (b & 1 == 1)) && (a ^ b) >> 1 == (a >> 1) ^ (b >> 1)
  {
  }

  lemma {:induction false} BitsOfXor(a: bv8, b: bv8, n: nat)
    ensures |BitsOf(a, n)| == |BitsOf(b, n)| == n
    ensures BitsOf(a ^ b, n) == XorBits(BitsOf(a, n), BitsOf(b, n))
    decreases n
  {
    if n > 0 {
      ByteXor(a, b);
      BitsOfXor(a >> 1, b >> 1, n - 1);
      var x, y := BitsOf(a, n), BitsOf(b, n);
      assert x[1..] == BitsOf(a >> 1, n - 1) && y[1..] == BitsOf(b >> 1, n - 1);
    }
  }

  lemma {:induction false} MessageXor(s: seq<bv8>, t: seq<bv8>)
    requires |s| == |t|
    ensures |Message(s)| == |Message(t)| && Message(XorBytes(s, t)) == XorBits(Message(s), Message(t))
    decreases s
  {
    if s != [] {
      var s', t' := s[1..], t[1..];
      BitsOfXor(s[0], t[0], 8);
      MessageXor(s', t');
      XorBitsInTwo(BitsOf(s[0], 8), Message(s'), BitsOf(t[0], 8), Message(t'));
      MessageOf(s[0] ^ t[0], XorBytes(s', t'));
    }
  }

  lemma MessageOf(b: bv8, s: seq<bv8>)
    ensures Message([b] + s) == BitsOf(b, 8) + Message(s)
  {
    assert ([b] + s)[1..] == s;
  }

  /** On strings of equal length the checksum of the sum is the sum of the checksums. */
  lemma Crc32Linear(s: seq<bv8>, t: seq<bv8>)
    requires |s| == |t|
    ensures Divide(0, Message(XorBytes(s, t))) == Divide(0, Message(s)) ^ Divide(0, Message(t))
  {
    MessageXor(s, t);
    DivideLinear(0, 0, Message(s), Message(t));
  }

  // ---------- what the checksum detects ----------

  /** The n lowest bits of a word from the lowest. */
  function WordBits(c: bv32, n: nat): (bits: seq<bool>)
    ensures |bits| == n
    decreases n
  {
    if n == 0 then [] else [LowWordBit(c)] + WordBits(HalfWord(c), n - 1)
  }

  predicate LowWordBit(c: bv32) { c & 1 == 1 }
  function HalfWord(c: bv32): bv32 { c >> 1 }

  /** A remainder brought in as the next message bit goes out of the remainder. */
  lemma FeedOwnBit(c: bv32)
    ensures Feed(c, LowWordBit(c)) == HalfWord(c)
  {
    LowBit(c);
    if LowWordBit(c) { LowBitOut(c); }
  }

  lemma LowBitOut(c: bv32)
    requires c & 1 == 1
    ensures (c ^ 1) & 1 == 0 && (c ^ 1) >> 1 == c >> 1
  {
  }

  lemma {:induction false} FeedOwnBits(c: bv32, n: nat)
    ensures Divide(c, WordBits(c, n)) == Iterate(HalfWord, c, n)
    decreases n
  {
    if n > 0 {
      FeedOwnBit(c);
      FeedOwnBits(HalfWord(c), n - 1);
    }
  }

  /** A word halved 32 times is 0. */
  lemma NoneLeft(c: bv32, n: nat)
    requires n == 32
    ensures Iterate(HalfWord, c, n) == 0
  {
    var m := n / 2;
    var d := ShiftedBy16(c, m);
    var e := ShiftedBy16(d, m);
    HalvedTwice(HalfWord, c, m, m);
    AllShiftedOut(c);
  }

  lemma ShiftedBy4(c: bv32, n: nat) returns (d: bv32)
    requires n == 4
    ensures d == c >> 4 && Iterate(HalfWord, c, n) == d
  {
    d := c >> 4;
    FourHalves(HalfWord, c, n);
    HalfOfHalves(c);
  }

  lemma FourHalves<T>(f: T -> T, c: T, n: nat)
    requires n == 4
    ensures Iterate(f, c, n) == f(f(f(f(c))))
  {
    assert Iterate(f, c, n) == Iterate(f, f(c), n - 1);
    assert Iterate(f, f(c), n - 1) == Iterate(f, f(f(c)), n - 2);
    assert Iterate(f, f(f(c)), n - 2) == Iterate(f, f(f(f(c))), n - 3);
    assert Iterate(f, f(f(f(c))), n - 3) == Iterate(f, f(f(f(f(c)))), n - 4);
  }

  lemma HalfOfHalves(c: bv32)
    ensures HalfWord(HalfWord(HalfWord(HalfWord(c)))) == c >> 4
  {
  }

  lemma ShiftedBy8(c: bv32, n: nat) returns (d: bv32)
    requires n == 8
    ensures d == c >> 8 && Iterate(HalfWord, c, n) == d
  {
    var m := n / 2;
    var e := ShiftedBy4(c, m);
    d := ShiftedBy4(e, m);
    HalvedTwice(HalfWord, c, m, m);
    FourAndFour(c);
  }

  lemma FourAndFour(c: bv32)
    ensures (c >> 4) >> 4 == c >> 8
  {
  }

  lemma ShiftedBy16(c: bv32, n: nat) returns (d: bv32)
    requires n == 16
    ensures d == c >> 16 && Iterate(HalfWord, c, n) == d
  {
    var m := n / 2;
    var e := ShiftedBy8(c, m);
    d := ShiftedBy8(e, m);
    HalvedTwice(HalfWord, c, m, m);
    EightAndEight(c);
  }

  lemma EightAndEight(c: bv32)
    ensures (c >> 8) >> 8 == c >> 16
  {
  }

  lemma AllShiftedOut(c: bv32)
    ensures (c >> 16) >> 16 == 0
  {
  }

  lemma {:induction false} HalvedTwice<T>(f: T -> T, c: T, m: nat, n: nat)
    ensures Iterate(f, c, m + n) == Iterate(f, Iterate(f, c, m), n)
    decreases m
  {
    if m > 0 { HalvedTwice(f, f(c), m - 1, n); }
  }

  /** A message followed by its checksum, from the lowest bit, has checksum 0. */
  lemma CheckedMessage(bits: seq<bool>)
    ensures Divide(0, bits + WordBits(Divide(0, bits), 32)) == 0
  {
    var c := Divide(0, bits);
    DivideInTwo(0, bits, WordBits(c, 32));
    FeedOwnBits(c, 32);
    NoneLeft(c, 32);
  }

  function Zeros(n: nat): (z: seq<bool>)
    ensures |z| == n
  {
    seq(n, _ => false)
  }

  /** No remainder but 0 is divided away. */
  lemma StepOfNonzero(c: bv32)
    ensures Feed(c, false) == 0 <==> c == 0
  {
  }

  lemma {:induction false} ZerosKeepNonzero(c: bv32, n: nat)
    ensures Divide(c, Zeros(n)) == 0 <==> c == 0
    decreases n
  {
    if n > 0 {
      StepOfNonzero(c);
      ZerosKeepNonzero(Feed(c, false), n - 1);
      assert Zeros(n)[1..] == Zeros(n - 1);
    }
  }

  /** The bits of a word that is not 0, anywhere in a message of zeros, are noticed. */
  lemma BurstIsNoticed(e: bv32, before: nat, after: nat)
    requires e != 0
    ensures Divide(0, Zeros(before) + WordBits(e, 32) + Zeros(after)) != 0
  {
    var bits := WordBits(e, 32);
    ZerosKeepNonzero(0, before);
    DivideInTwo(0, Zeros(before), bits);
    DivideInTwo(0, Zeros(before) + bits, Zeros(after));
    FeedOwnBits(e, 32);
    NoneLeft(e, 32);
    DivideLinear(e, 0, Zeros(32), bits);
    XorOfZeros(bits);
    assert Xor(e, 0) == e;
    ZerosKeepNonzero(e, 32);
    XorIsZero(Divide(e, Zeros(32)), Divide(0, bits));
    ZerosKeepNonzero(Divide(0, bits), after);
  }

  lemma {:induction false} XorOfZeros(x: seq<bool>)
    ensures XorBits(Zeros(|x|), x) == x
    decreases x
  {
    if x != [] {
      XorOfZeros(x[1..]);
      assert Zeros(|x|)[1..] == Zeros(|x[1..]|);
    }
  }

  lemma XorIsZero(a: bv32, b: bv32)
    requires Xor(a, b) == 0
    ensures a == b
  {
  }

  /** Two messages of one length that differ in a burst of up to 32 bits have different checksums. */
  lemma BurstsAreDetected(x: seq<bool>, y: seq<bool>, e: bv32, before: nat, after: nat)
    requires |x| == |y| && XorBits(x, y) == Zeros(before) + WordBits(e, 32) + Zeros(after) && e != 0
    ensures Divide(0, x) != Divide(0, y)
  {
    BurstIsNoticed(e, before, after);
    DivideLinear(0, 0, x, y);
    assert Xor(0, 0) == 0;
    XorOfSame(Divide(0, x));
  }

  lemma XorOfSame(a: bv32)
    ensures Xor(a, a) == 0
  {
  }
}
