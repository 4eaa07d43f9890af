/** Arithmetic in GF(2^8) modulo x^8 + x^4 + x^3 + x^2 + 1 (0x11D), as `gf256.rs` does it
    with a logarithm and an antilogarithm table, and the proof that the tables compute a field. */
module Gf256 {

  type byte = bv8

  type Bytes = seq<byte>

  /** The value of a byte. */
  function AsNat(b: byte): (n: nat)
    ensures n < 256
  {
    b as int
  }

  /** The byte of value `m`, counted up from zero. */
  function ToByte(m: nat): (b: byte)
    requires m < 256
    ensures AsNat(b) == m
  {
    if m == 0 then 0 else ToByte(m - 1) + 1
  }

  /** A machine index cast to a byte (`as u8`). */
  function U8(n: nat): (b: byte)
    ensures AsNat(b) == n % 256
  {
    ToByte(n % 256)
  }

  // The two constant tables. Each is written as a balanced decision tree over the index, which
  // keeps a lookup cheap for the solver; the leaves, read left to right, are the table's entries.

  // LOG[k], as a decision tree over the index.
  function Log(k: byte): byte {
    if k < 128 then (
      if k < 64 then (
        if k < 32 then (
          if k < 16 then (
            if k < 8 then (
              if k < 4 then (if k < 2 then (if k < 1 then 0 else 0) else if k < 3 then 1 else 25)
              else if k < 6 then (if k < 5 then 2 else 50) else if k < 7 then 26 else 198
            ) else (
              if k < 12 then (if k < 10 then (if k < 9 then 3 else 223) else if k < 11 then 51 else 238)
              else if k < 14 then (if k < 13 then 27 else 104) else if k < 15 then 199 else 75
            )
          ) else (
            if k < 24 then (
              if k < 20 then (if k < 18 then (if k < 17 then 4 else 100) else if k < 19 then 224 else 14)
              else if k < 22 then (if k < 21 then 52 else 141) else if k < 23 then 239 else 129
            ) else (
              if k < 28 then (if k < 26 then (if k < 25 then 28 else 193) else if k < 27 then 105 else 248)
              else if k < 30 then (if k < 29 then 200 else 8) else if k < 31 then 76 else 113
            )
          )
        ) else (
          if k < 48 then (
            if k < 40 then (
              if k < 36 then (if k < 34 then (if k < 33 then 5 else 138) else if k < 35 then 101 else 47)
              else if k < 38 then (if k < 37 then 225 else 36) else if k < 39 then 15 else 33
            ) else (
              if k < 44 then (if k < 42 then (if k < 41 then 53 else 147) else if k < 43 then 142 else 218)
              else if k < 46 then (if k < 45 then 240 else 18) else if k < 47 then 130 else 69
            )
          ) else (
            if k < 56 then (
              if k < 52 then (if k < 50 then (if k < 49 then 29 else 181) else if k < 51 then 194 else 125)
              else if k < 54 then (if k < 53 then 106 else 39) else if k < 55 then 249 else 185
            ) else (
              if k < 60 then (if k < 58 then (if k < 57 then 201 else 154) else if k < 59 then 9 else 120)
              else if k < 62 then (if k < 61 then 77 else 228) else if k < 63 then 114 else 166
            )
          )
        )
      ) else (
        if k < 96 then (
          if k < 80 then (
            if k < 72 then (
              if k < 68 then (if k < 66 then (if k < 65 then 6 else 191) else if k < 67 then 139 else 98)
              else if k < 70 then (if k < 69 then 102 else 221) else if k < 71 then 48 else 253
            ) else (
              if k < 76 then (if k < 74 then (if k < 73 then 226 else 152) else if k < 75 then 37 else 179)
              else if k < 78 then (if k < 77 then 16 else 145) else if k < 79 then 34 else 136
            )
          ) else (
            if k < 88 then (
              if k < 84 then (if k < 82 then (if k < 81 then 54 else 208) else if k < 83 then 148 else 206)
              else if k < 86 then (if k < 85 then 143 else 150) else if k < 87 then 219 else 189
            ) else (
              if k < 92 then (if k < 90 then (if k < 89 then 241 else 210) else if k < 91 then 19 else 92)
              else if k < 94 then (if k < 93 then 131 else 56) else if k < 95 then 70 else 64
            )
          )
        ) else (
          if k < 112 then (
            if k < 104 then (
              if k < 100 then (if k < 98 then (if k < 97 then 30 else 66) else if k < 99 then 182 else 163)
              else if k < 102 then (if k < 101 then 195 else 72) else if k < 103 then 126 else 110
            ) else (
              if k < 108 then (if k < 106 then (if k < 105 then 107 else 58) else if k < 107 then 40 else 84)
              else if k < 110 then (if k < 109 then 250 else 133) else if k < 111 then 186 else 61
            )
          ) else (
            if k < 120 then (
              if k < 116 then (if k < 114 then (if k < 113 then 202 else 94) else if k < 115 then 155 else 159)
              else if k < 118 then (if k < 117 then 10 else 21) else if k < 119 then 121 else 43
            ) else (
              if k < 124 then (if k < 122 then (if k < 121 then 78 else 212) else if k < 123 then 229 else 172)
              else if k < 126 then (if k < 125 then 115 else 243) else if k < 127 then 167 else 87
            )
          )
        )
      )
    ) else (
      if k < 192 then (
        if k < 160 then (
          if k < 144 then (
            if k < 136 then (
              if k < 132 then (if k < 130 then (if k < 129 then 7 else 112) else if k < 131 then 192 else 247)
              else if k < 134 then (if k < 133 then 140 else 128) else if k < 135 then 99 else 13
            ) else (
              if k < 140 then (if k < 138 then (if k < 137 then 103 else 74) else if k < 139 then 222 else 237)
              else if k < 142 then (if k < 141 then 49 else 197) else if k < 143 then 254 else 24
            )
          ) else (
            if k < 152 then (
              if k < 148 then (if k < 146 then (if k < 145 then 227 else 165) else if k < 147 then 153 else 119)
              else if k < 150 then (if k < 149 then 38 else 184) else if k < 151 then 180 else 124
            ) else (
              if k < 156 then (if k < 154 then (if k < 153 then 17 else 68) else if k < 155 then 146 else 217)
              else if k < 158 then (if k < 157 then 35 else 32) else if k < 159 then 137 else 46
            )
          )
        ) else (
          if k < 176 then (
            if k < 168 then (
              if k < 164 then (if k < 162 then (if k < 161 then 55 else 63) else if k < 163 then 209 else 91)
              else if k < 166 then (if k < 165 then 149 else 188) else if k < 167 then 207 else 205
            ) else (
              if k < 172 then (if k < 170 then (if k < 169 then 144 else 135) else if k < 171 then 151 else 178)
              else if k < 174 then (if k < 173 then 220 else 252) else if k < 175 then 190 else 97
            )
          ) else (
            if k < 184 then (
              if k < 180 then (if k < 178 then (if k < 177 then 242 else 86) else if k < 179 then 211 else 171)
              else if k < 182 then (if k < 181 then 20 else 42) else if k < 183 then 93 else 158
            ) else (
              if k < 188 then (if k < 186 then (if k < 185 then 132 else 60) else if k < 187 then 57 else 83)
              else if k < 190 then (if k < 189 then 71 else 109) else if k < 191 then 65 else 162
            )
          )
        )
      ) else (
        if k < 224 then (
          if k < 208 then (
            if k < 200 then (
              if k < 196 then (if k < 194 then (if k < 193 then 31 else 45) else if k < 195 then 67 else 216)
              else if k < 198 then (if k < 197 then 183 else 123) else if k < 199 then 164 else 118
            ) else (
              if k < 204 then (if k < 202 then (if k < 201 then 196 else 23) else if k < 203 then 73 else 236)
              else if k < 206 then (if k < 205 then 127 else 12) else if k < 207 then 111 else 246
            )
          ) else (
            if k < 216 then (
              if k < 212 then (if k < 210 then (if k < 209 then 108 else 161) else if k < 211 then 59 else 82)
              else if k < 214 then (if k < 213 then 41 else 157) else if k < 215 then 85 else 170
            ) else (
              if k < 220 then (if k < 218 then (if k < 217 then 251 else 96) else if k < 219 then 134 else 177)
              else if k < 222 then (if k < 221 then 187 else 204) else if k < 223 then 62 else 90
            )
          )
        ) else (
          if k < 240 then (
            if k < 232 then (
              if k < 228 then (if k < 226 then (if k < 225 then 203 else 89) else if k < 227 then 95 else 176)
              else if k < 230 then (if k < 229 then 156 else 169) else if k < 231 then 160 else 81
            ) else (
              if k < 236 then (if k < 234 then (if k < 233 then 11 else 245) else if k < 235 then 22 else 235)
              else if k < 238 then (if k < 237 then 122 else 117) else if k < 239 then 44 else 215
            )
          ) else (
            if k < 248 then (
              if k < 244 then (if k < 242 then (if k < 241 then 79 else 174) else if k < 243 then 213 else 233)
              else if k < 246 then (if k < 245 then 230 else 231) else if k < 247 then 173 else 232
            ) else (
              if k < 252 then (if k < 250 then (if k < 249 then 116 else 214) else if k < 251 then 244 else 234)
              else if k < 254 then (if k < 253 then 168 else 80) else if k < 255 then 88 else 175
            )
          )
        )
      )
    )
  }

  // ALOG[k], as a decision tree over the index.
  function Alog(k: byte): byte {
    if k < 128 then (
      if k < 64 then (
        if k < 32 then (
          if k < 16 then (
            if k < 8 then (
              if k < 4 then (if k < 2 then (if k < 1 then 1 else 2) else if k < 3 then 4 else 8)
              else if k < 6 then (if k < 5 then 16 else 32) else if k < 7 then 64 else 128
            ) else (
              if k < 12 then (if k < 10 then (if k < 9 then 29 else 58) else if k < 11 then 116 else 232)
              else if k < 14 then (if k < 13 then 205 else 135) else if k < 15 then 19 else 38
            )
          ) else (
            if k < 24 then (
              if k < 20 then (if k < 18 then (if k < 17 then 76 else 152) else if k < 19 then 45 else 90)
              else if k < 22 then (if k < 21 then 180 else 117) else if k < 23 then 234 else 201
            ) else (
              if k < 28 then (if k < 26 then (if k < 25 then 143 else 3) else if k < 27 then 6 else 12)
              else if k < 30 then (if k < 29 then 24 else 48) else if k < 31 then 96 else 192
            )
          )
        ) else (
          if k < 48 then (
            if k < 40 then (
              if k < 36 then (if k < 34 then (if k < 33 then 157 else 39) else if k < 35 then 78 else 156)
              else if k < 38 then (if k < 37 then 37 else 74) else if k < 39 then 148 else 53
            ) else (
              if k < 44 then (if k < 42 then (if k < 41 then 106 else 212) else if k < 43 then 181 else 119)
              else if k < 46 then (if k < 45 then 238 else 193) else if k < 47 then 159 else 35
            )
          ) else (
            if k < 56 then (
              if k < 52 then (if k < 50 then (if k < 49 then 70 else 140) else if k < 51 then 5 else 10)
              else if k < 54 then (if k < 53 then 20 else 40) else if k < 55 then 80 else 160
            ) else (
              if k < 60 then (if k < 58 then (if k < 57 then 93 else 186) else if k < 59 then 105 else 210)
              else if k < 62 then (if k < 61 then 185 else 111) else if k < 63 then 222 else 161
            )
          )
        )
      ) else (
        if k < 96 then (
          if k < 80 then (
            if k < 72 then (
              if k < 68 then (if k < 66 then (if k < 65 then 95 else 190) else if k < 67 then 97 else 194)
              else if k < 70 then (if k < 69 then 153 else 47) else if k < 71 then 94 else 188
            ) else (
              if k < 76 then (if k < 74 then (if k < 73 then 101 else 202) else if k < 75 then 137 else 15)
              else if k < 78 then (if k < 77 then 30 else 60) else if k < 79 then 120 else 240
            )
          ) else (
            if k < 88 then (
              if k < 84 then (if k < 82 then (if k < 81 then 253 else 231) else if k < 83 then 211 else 187)
              else if k < 86 then (if k < 85 then 107 else 214) else if k < 87 then 177 else 127
            ) else (
              if k < 92 then (if k < 90 then (if k < 89 then 254 else 225) else if k < 91 then 223 else 163)
              else if k < 94 then (if k < 93 then 91 else 182) else if k < 95 then 113 else 226
            )
          )
        ) else (
          if k < 112 then (
            if k < 104 then (
              if k < 100 then (if k < 98 then (if k < 97 then 217 else 175) else if k < 99 then 67 else 134)
              else if k < 102 then (if k < 101 then 17 else 34) else if k < 103 then 68 else 136
            ) else (
              if k < 108 then (if k < 106 then (if k < 105 then 13 else 26) else if k < 107 then 52 else 104)
              else if k < 110 then (if k < 109 then 208 else 189) else if k < 111 then 103 else 206
            )
          ) else (
            if k < 120 then (
              if k < 116 then (if k < 114 then (if k < 113 then 129 else 31) else if k < 115 then 62 else 124)
              else if k < 118 then (if k < 117 then 248 else 237) else if k < 119 then 199 else 147
            ) else (
              if k < 124 then (if k < 122 then (if k < 121 then 59 else 118) else if k < 123 then 236 else 197)
              else if k < 126 then (if k < 125 then 151 else 51) else if k < 127 then 102 else 204
            )
          )
        )
      )
    ) else (
      if k < 192 then (
        if k < 160 then (
          if k < 144 then (
            if k < 136 then (
              if k < 132 then (if k < 130 then (if k < 129 then 133 else 23) else if k < 131 then 46 else 92)
              else if k < 134 then (if k < 133 then 184 else 109) else if k < 135 then 218 else 169
            ) else (
              if k < 140 then (if k < 138 then (if k < 137 then 79 else 158) else if k < 139 then 33 else 66)
              else if k < 142 then (if k < 141 then 132 else 21) else if k < 143 then 42 else 84
            )
          ) else (
            if k < 152 then (
              if k < 148 then (if k < 146 then (if k < 145 then 168 else 77) else if k < 147 then 154 else 41)
              else if k < 150 then (if k < 149 then 82 else 164) else if k < 151 then 85 else 170
            ) else (
              if k < 156 then (if k < 154 then (if k < 153 then 73 else 146) else if k < 155 then 57 else 114)
              else if k < 158 then (if k < 157 then 228 else 213) else if k < 159 then 183 else 115
            )
          )
        ) else (
          if k < 176 then (
            if k < 168 then (
              if k < 164 then (if k < 162 then (if k < 161 then 230 else 209) else if k < 163 then 191 else 99)
              else if k < 166 then (if k < 165 then 198 else 145) else if k < 167 then 63 else 126
            ) else (
              if k < 172 then (if k < 170 then (if k < 169 then 252 else 229) else if k < 171 then 215 else 179)
              else if k < 174 then (if k < 173 then 123 else 246) else if k < 175 then 241 else 255
            )
          ) else (
            if k < 184 then (
              if k < 180 then (if k < 178 then (if k < 177 then 227 else 219) else if k < 179 then 171 else 75)
              else if k < 182 then (if k < 181 then 150 else 49) else if k < 183 then 98 else 196
            ) else (
              if k < 188 then (if k < 186 then (if k < 185 then 149 else 55) else if k < 187 then 110 else 220)
              else if k < 190 then (if k < 189 then 165 else 87) else if k < 191 then 174 else 65
            )
          )
        )
      ) else (
        if k < 224 then (
          if k < 208 then (
            if k < 200 then (
              if k < 196 then (if k < 194 then (if k < 193 then 130 else 25) else if k < 195 then 50 else 100)
              else if k < 198 then (if k < 197 then 200 else 141) else if k < 199 then 7 else 14
            ) else (
              if k < 204 then (if k < 202 then (if k < 201 then 28 else 56) else if k < 203 then 112 else 224)
              else if k < 206 then (if k < 205 then 221 else 167) else if k < 207 then 83 else 166
            )
          ) else (
            if k < 216 then (
              if k < 212 then (if k < 210 then (if k < 209 then 81 else 162) else if k < 211 then 89 else 178)
              else if k < 214 then (if k < 213 then 121 else 242) else if k < 215 then 249 else 239
            ) else (
              if k < 220 then (if k < 218 then (if k < 217 then 195 else 155) else if k < 219 then 43 else 86)
              else if k < 222 then (if k < 221 then 172 else 69) else if k < 223 then 138 else 9
            )
          )
        ) else (
          if k < 240 then (
            if k < 232 then (
              if k < 228 then (if k < 226 then (if k < 225 then 18 else 36) else if k < 227 then 72 else 144)
              else if k < 230 then (if k < 229 then 61 else 122) else if k < 231 then 244 else 245
            ) else (
              if k < 236 then (if k < 234 then (if k < 233 then 247 else 243) else if k < 235 then 251 else 235)
              else if k < 238 then (if k < 237 then 203 else 139) else if k < 239 then 11 else 22
            )
          ) else (
            if k < 248 then (
              if k < 244 then (if k < 242 then (if k < 241 then 44 else 88) else if k < 243 then 176 else 125)
              else if k < 246 then (if k < 245 then 250 else 233) else if k < 247 then 207 else 131
            ) else (
              if k < 252 then (if k < 250 then (if k < 249 then 27 else 54) else if k < 251 then 108 else 216)
              else if k < 254 then (if k < 253 then 173 else 71) else if k < 255 then 142 else 1
            )
          )
        )
      )
    )
  }

  /** LOG[a], widened. */
  function LogOf(a: byte): (n: nat)
    ensures n < 256
  {
    AsNat(Log(a))
  }

  /** ALOG[n] for a widened index. */
  function AlogOf(n: nat): byte
    requires n < 256
  {
    Alog(U8(n))
  }

  function GfAdd(a: byte, b: byte): byte {
    a ^ b
  }

  function GfSub(a: byte, b: byte): byte {
    a ^ b
  }

  function GfMul(a: byte, b: byte): byte {
    if a == 0 || b == 0 then 0
    else
      var logSum := LogOf(a) + LogOf(b);
      AlogOf(logSum % 255)
  }

  function GfInv(a: byte): byte {
    if a == 0 then 0
    else AlogOf(255 - LogOf(a))
  }

  // ---- The polynomial view, independent of the tables ----

  /** Multiplication by x: shift, and reduce by 0x11D when the degree reaches 8. */
  function Xtime(a: byte): byte {
    if a & 0x80 == 0 then a << 1 else (a << 1) ^ 0x1D
  }

  /** Multiplication by x, `k` times over. */
  function XtimeN(a: byte, k: nat): byte {
    if k == 0 then a else Xtime(XtimeN(a, k - 1))
  }

  /** Schoolbook product of two polynomials over GF(2), reduced modulo 0x11D: for each term x^i
      of `b`, add x^i * a. */
  function PolyMul(a: byte, b: byte): byte
    decreases b
  {
    if b == 0 then 0
    else GfAdd(if b & 1 == 1 then a else 0, PolyMul(Xtime(a), b >> 1))
  }

  // ---- What the two tables contain ----

  lemma AlogStep(k: byte)
    requires k < 255
    ensures Alog(k + 1) == Xtime(Alog(k))
  {
    // Counting up flips the trailing ones of k and the zero above them.
    if k & 1 == 0 {
      assert k + 1 == k ^ 1;
    } else if k & 2 == 0 {
      assert k + 1 == k ^ 3;
    } else if k & 4 == 0 {
      assert k + 1 == k ^ 7;
    } else if k & 8 == 0 {
      assert k + 1 == k ^ 15;
    }
  }

  /** ALOG undoes LOG on every non-zero byte. */
  lemma AlogOfLog(a: byte)
    requires a != 0
    ensures Log(a) < 255 && Alog(Log(a)) == a
  {}

  lemma XtimeNStep(a: byte, k: nat)
    requires k > 0
    ensures XtimeN(a, k) == Xtime(XtimeN(a, k - 1))
  {}

  lemma FirstPower()
    ensures AlogOf(0) == 1 && XtimeN(1, 0) == 1
  {
    assert U8(0) == 0;
  }

  lemma BelowTop(b: byte)
    requires AsNat(b) != 255
    ensures b < 255
  {
    TopByte();
    hide AsNat;
  }

  lemma TopByte()
    ensures AsNat(255) == 255
  {}

  lemma NextByte(n: nat)
    requires 0 < n < 256
    ensures U8(n - 1) < 255 && U8(n) == U8(n - 1) + 1
  {
    hide AsNat;
    BelowTop(U8(n - 1));
  }

  lemma {:induction false} AlogOfIsPower(n: nat)
    requires n < 256
    ensures AlogOf(n) == XtimeN(1, n)
  {
    hide Alog, Xtime, XtimeN, U8, AsNat;
    if n == 0 {
      FirstPower();
    } else {
      AlogOfIsPower(n - 1);
      NextByte(n);
      AlogStep(U8(n - 1));
      XtimeNStep(1, n);
    }
  }

  lemma ByteByValue(a: byte, b: byte)
    requires AsNat(a) == AsNat(b)
    ensures a == b
  {}

  /** ALOG[k] is x^k. */
  lemma AlogIsPower(k: byte)
    ensures Alog(k) == XtimeN(1, AsNat(k))
  {
    hide Alog, Xtime, XtimeN, U8, AsNat;
    AlogOfIsPower(AsNat(k));
    ByteByValue(U8(AsNat(k)), k);
  }

  lemma {:induction false} XtimeNAdd(a: byte, i: nat, j: nat)
    ensures XtimeN(a, i + j) == XtimeN(XtimeN(a, i), j)
  {
    hide Xtime;
    if j > 0 { XtimeNAdd(a, i, j - 1); }
  }

  // Doubling is a shift and a reduction, each of them linear.

  function ShiftLeft(a: byte): byte {
    a << 1
  }

  function Reduction(a: byte): byte {
    if a & 0x80 == 0 then 0 else 0x1D
  }

  lemma XtimeParts(a: byte)
    ensures Xtime(a) == GfAdd(ShiftLeft(a), Reduction(a))
  {}

  lemma ShiftLinear(a: byte, b: byte)
    ensures ShiftLeft(GfAdd(a, b)) == GfAdd(ShiftLeft(a), ShiftLeft(b))
  {}

  lemma ReductionLinear(a: byte, b: byte)
    ensures Reduction(GfAdd(a, b)) == GfAdd(Reduction(a), Reduction(b))
  {}

  lemma XtimeLinear(a: byte, b: byte)
    ensures Xtime(GfAdd(a, b)) == GfAdd(Xtime(a), Xtime(b))
  {
    hide Xtime, GfAdd, ShiftLeft, Reduction;
    XtimeParts(a);
    XtimeParts(b);
    XtimeParts(GfAdd(a, b));
    ShiftLinear(a, b);
    ReductionLinear(a, b);
    AddInterchange(ShiftLeft(a), ShiftLeft(b), Reduction(a), Reduction(b));
  }

  lemma {:induction false} XtimeNLinear(a: byte, b: byte, k: nat)
    ensures XtimeN(GfAdd(a, b), k) == GfAdd(XtimeN(a, k), XtimeN(b, k))
  {
    hide Xtime, GfAdd;
    if k > 0 {
      XtimeNLinear(a, b, k - 1);
      XtimeLinear(XtimeN(a, k - 1), XtimeN(b, k - 1));
    }
  }

  lemma {:induction false} XtimeNZero(k: nat)
    ensures XtimeN(0, k) == 0
  {
    if k > 0 { XtimeNZero(k - 1); }
  }

  /** x^255 is 1. */
  lemma PowerPeriod()
    ensures XtimeN(1, 255) == 1
  {
    assert Alog(255) == 1;
    hide Alog;
    AlogIsPower(255);
  }

  lemma LogOfIsLog(a: byte)
    requires a != 0
    ensures LogOf(a) < 255 && XtimeN(1, LogOf(a)) == a
  {
    hide Alog, Log;
    AlogOfLog(a);
    AlogIsPower(Log(a));
  }

  /** Exponents count modulo 255. */
  lemma PowerOfSum(i: nat, j: nat)
    requires i < 255 && j < 255
    ensures AlogOf((i + j) % 255) == XtimeN(1, i + j)
  {
    hide AlogOf, XtimeN, Xtime;
    if i + j < 255 {
      AlogOfIsPower(i + j);
    } else {
      AlogOfIsPower(i + j - 255);
      PowerPeriod();
      XtimeNAdd(1, 255, i + j - 255);
    }
  }

  /** Multiplying by b is multiplying by x, LOG[b] times. */
  lemma MulIsXtimeN(a: byte, b: byte)
    requires b != 0
    ensures GfMul(a, b) == XtimeN(a, LogOf(b))
  {
    hide LogOf, AlogOf, XtimeN, Xtime;
    var i, j := LogOf(a), LogOf(b);
    if a == 0 {
      XtimeNZero(j);
    } else {
      LogOfIsLog(a);
      LogOfIsLog(b);
      XtimeNAdd(1, i, j);
      PowerOfSum(i, j);
    }
  }

  // ---- The field laws ----

  lemma MulComm(a: byte, b: byte)
    ensures GfMul(a, b) == GfMul(b, a)
  {
    hide LogOf, AlogOf;
  }

  lemma MulZero(a: byte)
    ensures GfMul(a, 0) == 0 && GfMul(0, a) == 0
  {
    hide LogOf, AlogOf;
  }

  lemma MulOne(a: byte)
    ensures GfMul(a, 1) == a && GfMul(1, a) == a
  {
    MulComm(a, 1);
    MulIsXtimeN(a, 1);
    assert Log(1) == 0;
  }

  lemma SubIsAdd(a: byte, b: byte)
    ensures GfSub(a, b) == GfAdd(a, b)
  {}

  lemma AddZero(a: byte)
    ensures GfAdd(a, 0) == a && GfAdd(0, a) == a
  {}

  /** Every byte is its own negation. */
  lemma AddZeroIff(a: byte, b: byte)
    ensures GfAdd(a, b) == 0 <==> a == b
  {}

  lemma AddComm(a: byte, b: byte)
    ensures GfAdd(a, b) == GfAdd(b, a)
  {}

  lemma AddAssoc(a: byte, b: byte, c: byte)
    ensures GfAdd(GfAdd(a, b), c) == GfAdd(a, GfAdd(b, c))
  {}

  lemma AddInterchange(a: byte, b: byte, c: byte, d: byte)
    ensures GfAdd(GfAdd(a, b), GfAdd(c, d)) == GfAdd(GfAdd(a, c), GfAdd(b, d))
  {
    hide GfAdd;
    AddAssoc(a, b, GfAdd(c, d));
    AddAssoc(b, c, d);
    AddComm(b, c);
    AddAssoc(c, b, d);
    AddAssoc(a, c, GfAdd(b, d));
  }

  lemma MulDistribLeft(a: byte, b: byte, c: byte)
    ensures GfMul(GfAdd(a, b), c) == GfAdd(GfMul(a, c), GfMul(b, c))
  {
    AddZero(0);
    hide GfMul, GfAdd, LogOf, XtimeN, Xtime;
    if c == 0 {
      MulZero(a);
      MulZero(b);
      MulZero(GfAdd(a, b));
    } else {
      MulIsXtimeN(a, c);
      MulIsXtimeN(b, c);
      MulIsXtimeN(GfAdd(a, b), c);
      XtimeNLinear(a, b, LogOf(c));
    }
  }

  /** Multiplication distributes over addition, in either argument. */
  lemma MulDistrib(a: byte, b: byte, c: byte)
    ensures GfMul(GfAdd(a, b), c) == GfAdd(GfMul(a, c), GfMul(b, c))
    ensures GfMul(c, GfAdd(a, b)) == GfAdd(GfMul(c, a), GfMul(c, b))
  {
    hide GfMul, GfAdd;
    MulDistribLeft(a, b, c);
    MulComm(a, c);
    MulComm(b, c);
    MulComm(GfAdd(a, b), c);
  }

  lemma MulAssoc(a: byte, b: byte, c: byte)
    ensures GfMul(GfMul(a, b), c) == GfMul(a, GfMul(b, c))
  {
    hide GfMul, LogOf, XtimeN, Xtime;
    var bc := GfMul(b, c);
    if a == 0 || b == 0 || c == 0 {
      MulZero(a);
      MulZero(b);
      MulZero(c);
      MulZero(bc);
      MulZero(GfMul(a, b));
    } else {
      var i, j, k := LogOf(a), LogOf(b), LogOf(c);
      MulIsXtimeN(a, b);
      MulIsXtimeN(GfMul(a, b), c);
      MulIsXtimeN(b, c);
      MulComm(a, bc);
      MulIsXtimeN(bc, a);
      // Both sides are x^(i + j + k).
      LogOfIsLog(a);
      LogOfIsLog(b);
      XtimeNAdd(1, i, j);
      XtimeNAdd(1, i + j, k);
      XtimeNAdd(1, j, k);
      XtimeNAdd(1, j + k, i);
      assert i + j + k == j + k + i;
    }
  }

  /** Every non-zero byte has `GfInv` as its inverse. */
  lemma MulInv(a: byte)
    requires a != 0
    ensures GfInv(a) != 0
    ensures GfMul(a, GfInv(a)) == 1 && GfMul(GfInv(a), a) == 1
  {
    hide GfMul, LogOf, AlogOf;
    var inv, k := GfInv(a), LogOf(a);
    LogOfIsLog(a);
    AlogOfIsPower(255 - k);
    XtimeNAdd(1, 255 - k, k);
    PowerPeriod();
    MulIsXtimeN(inv, a);
    MulComm(a, inv);
    MulZero(a);
  }

  /** A field has no zero divisors. */
  lemma MulNonZero(a: byte, b: byte)
    ensures GfMul(a, b) == 0 <==> a == 0 || b == 0
  {
    hide GfMul, GfInv;
    MulZero(a);
    MulZero(b);
    if a != 0 && GfMul(a, b) == 0 {
      MulInv(a);
      MulAssoc(GfInv(a), a, b);
      MulOne(b);
      MulZero(GfInv(a));
    }
  }

  /** The table product is the product of polynomials modulo 0x11D, on all 65536 pairs. */
  lemma {:induction false} MulIsPolyMul(a: byte, b: byte)
    ensures GfMul(a, b) == PolyMul(a, b)
    decreases b
  {
    hide GfMul, GfAdd, Xtime;
    if b == 0 {
      MulZero(a);
    } else {
      var low, high := b & 1, b >> 1;
      SplitLowBit(b);
      MulDistrib(low, Xtime(high), a);
      MulXtime(a, high);
      MulZero(a);
      MulOne(a);
      MulIsPolyMul(Xtime(a), high);
    }
  }

  lemma SplitLowBit(b: byte)
    requires b != 0
    ensures b == GfAdd(b & 1, Xtime(b >> 1))
    ensures b >> 1 < b && (b & 1 == 0 || b & 1 == 1)
  {}

  lemma MulXtime(a: byte, b: byte)
    ensures GfMul(a, Xtime(b)) == GfMul(Xtime(a), b)
  {
    hide GfMul, LogOf;
    if a == 0 || b == 0 {
      MulZero(a);
      MulZero(Xtime(a));
      MulZero(b);
      MulZero(Xtime(b));
    } else {
      MulComm(a, Xtime(b));
      MulIsXtimeN(Xtime(b), a);
      MulIsXtimeN(b, a);
      MulComm(a, b);
      MulIsXtimeN(a, b);
      MulIsXtimeN(Xtime(a), b);
      XtimeNAdd(b, 1, LogOf(a));
      XtimeNAdd(b, LogOf(a), 1);
      XtimeNAdd(a, 1, LogOf(b));
      XtimeNAdd(a, LogOf(b), 1);
      assert forall c: byte :: XtimeN(c, 1) == Xtime(c) by {
        forall c: byte ensures XtimeN(c, 1) == Xtime(c) { assert XtimeN(c, 0) == c; }
      }
    }
  }
}
