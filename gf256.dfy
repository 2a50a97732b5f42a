/**
 * The finite field GF(256) that every polynomial coefficient lives in.
 *
 * An element is a byte. Addition is bitwise exclusive or, so every element is
 * its own negative and subtraction is the same operation. Multiplication is
 * multiplication of polynomials over GF(2) reduced modulo
 * x^8 + x^4 + x^3 + x^2 + 1 (0x11D), the field of section 7.5.2 of
 * ISO/IEC 18004, whose primitive element is 2.
 *
 * Products and quotients are computed the usual way, through a logarithm table
 * and an antilogarithm table for the primitive element. The antilogarithm is
 * defined as repeated doubling (Exp); the stored antilogarithm table
 * (AntilogTable) is proved equal to it entry by entry, and the logarithm table
 * (LogTable) is proved to invert it. Both tables are read through lookups
 * (Antilog, Log) that are equal to them.
 */
module GF256 {

  /**
   * Field addition, which is also field subtraction: a sum is 0 exactly when
   * the two summands are equal.
   */
  function Add(a: bv8, b: bv8): (c: bv8)
    ensures c == 0 <==> a == b
  {
    a ^ b
  }

  /** Multiplication by the primitive element 2 (the polynomial x), reduced modulo 0x11D. */
  function XTime(a: bv8): bv8
  {
    if a & 0x80 == 0 then a << 1 else (a << 1) ^ 0x1D
  }

  /** 2 raised to the power j: j successive doublings of 1. */
  function Exp(j: nat): bv8
  {
    if j == 0 then 1 else XTime(Exp(j - 1))
  }

  /**
   * 2 to the power j, for 0 <= j < 255, read from AntilogTable. Like Log
   * below, the lookup goes through a countdown that does not change the value
   * (AntilogIsTable) but keeps the solver from expanding the whole table
   * wherever an antilogarithm of an unknown power appears.
   */
  function Antilog(j: nat): bv8
    requires j < 255
  {
    AntilogLookup(j, j)
  }

  function AntilogLookup(j: nat, countdown: nat): bv8
    requires j < 255
    decreases countdown
  {
    if countdown > 0 then AntilogLookup(j, countdown - 1) else AntilogTable(j)
  }

  lemma {:induction false} AntilogLookupIsTable(j: nat, countdown: nat)
    requires j < 255
    ensures AntilogLookup(j, countdown) == AntilogTable(j)
    decreases countdown
  {
    if countdown > 0 {
      AntilogLookupIsTable(j, countdown - 1);
    }
  }

  lemma AntilogIsTable(j: nat)
    requires j < 255
    ensures Antilog(j) == AntilogTable(j)
  {
    AntilogLookupIsTable(j, j);
  }

  /**
   * The antilogarithm table: entry j is 2 to the power j, for 0 <= j < 255.
   * It is written as a balanced tree of comparisons on j rather than as a
   * sequence literal, so that a lookup at a known index is a chain of eight
   * cases for the solver.
   */
  function AntilogTable(j: nat): bv8
    requires j < 255
  {
    if j < 127 then
      if j < 63 then
        if j < 31 then
          if j < 15 then
            if j < 7 then if j < 3 then if j < 1 then 1 else if j < 2 then 2 else 4 else if j < 5 then if j < 4 then 8 else 16 else if j < 6 then 32 else 64 else if j < 11 then if j < 9 then if j < 8 then 128 else 29 else if j < 10 then 58 else 116 else if j < 13 then if j < 12 then 232 else 205 else if j < 14 then 135 else 19
          else
            if j < 23 then if j < 19 then if j < 17 then if j < 16 then 38 else 76 else if j < 18 then 152 else 45 else if j < 21 then if j < 20 then 90 else 180 else if j < 22 then 117 else 234 else if j < 27 then if j < 25 then if j < 24 then 201 else 143 else if j < 26 then 3 else 6 else if j < 29 then if j < 28 then 12 else 24 else if j < 30 then 48 else 96
        else
          if j < 47 then
            if j < 39 then if j < 35 then if j < 33 then if j < 32 then 192 else 157 else if j < 34 then 39 else 78 else if j < 37 then if j < 36 then 156 else 37 else if j < 38 then 74 else 148 else if j < 43 then if j < 41 then if j < 40 then 53 else 106 else if j < 42 then 212 else 181 else if j < 45 then if j < 44 then 119 else 238 else if j < 46 then 193 else 159
          else
            if j < 55 then if j < 51 then if j < 49 then if j < 48 then 35 else 70 else if j < 50 then 140 else 5 else if j < 53 then if j < 52 then 10 else 20 else if j < 54 then 40 else 80 else if j < 59 then if j < 57 then if j < 56 then 160 else 93 else if j < 58 then 186 else 105 else if j < 61 then if j < 60 then 210 else 185 else if j < 62 then 111 else 222
      else
        if j < 95 then
          if j < 79 then
            if j < 71 then if j < 67 then if j < 65 then if j < 64 then 161 else 95 else if j < 66 then 190 else 97 else if j < 69 then if j < 68 then 194 else 153 else if j < 70 then 47 else 94 else if j < 75 then if j < 73 then if j < 72 then 188 else 101 else if j < 74 then 202 else 137 else if j < 77 then if j < 76 then 15 else 30 else if j < 78 then 60 else 120
          else
            if j < 87 then if j < 83 then if j < 81 then if j < 80 then 240 else 253 else if j < 82 then 231 else 211 else if j < 85 then if j < 84 then 187 else 107 else if j < 86 then 214 else 177 else if j < 91 then if j < 89 then if j < 88 then 127 else 254 else if j < 90 then 225 else 223 else if j < 93 then if j < 92 then 163 else 91 else if j < 94 then 182 else 113
        else
          if j < 111 then
            if j < 103 then if j < 99 then if j < 97 then if j < 96 then 226 else 217 else if j < 98 then 175 else 67 else if j < 101 then if j < 100 then 134 else 17 else if j < 102 then 34 else 68 else if j < 107 then if j < 105 then if j < 104 then 136 else 13 else if j < 106 then 26 else 52 else if j < 109 then if j < 108 then 104 else 208 else if j < 110 then 189 else 103
          else
            if j < 119 then if j < 115 then if j < 113 then if j < 112 then 206 else 129 else if j < 114 then 31 else 62 else if j < 117 then if j < 116 then 124 else 248 else if j < 118 then 237 else 199 else if j < 123 then if j < 121 then if j < 120 then 147 else 59 else if j < 122 then 118 else 236 else if j < 125 then if j < 124 then 197 else 151 else if j < 126 then 51 else 102
    else
      if j < 191 then
        if j < 159 then
          if j < 143 then
            if j < 135 then if j < 131 then if j < 129 then if j < 128 then 204 else 133 else if j < 130 then 23 else 46 else if j < 133 then if j < 132 then 92 else 184 else if j < 134 then 109 else 218 else if j < 139 then if j < 137 then if j < 136 then 169 else 79 else if j < 138 then 158 else 33 else if j < 141 then if j < 140 then 66 else 132 else if j < 142 then 21 else 42
          else
            if j < 151 then if j < 147 then if j < 145 then if j < 144 then 84 else 168 else if j < 146 then 77 else 154 else if j < 149 then if j < 148 then 41 else 82 else if j < 150 then 164 else 85 else if j < 155 then if j < 153 then if j < 152 then 170 else 73 else if j < 154 then 146 else 57 else if j < 157 then if j < 156 then 114 else 228 else if j < 158 then 213 else 183
        else
          if j < 175 then
            if j < 167 then if j < 163 then if j < 161 then if j < 160 then 115 else 230 else if j < 162 then 209 else 191 else if j < 165 then if j < 164 then 99 else 198 else if j < 166 then 145 else 63 else if j < 171 then if j < 169 then if j < 168 then 126 else 252 else if j < 170 then 229 else 215 else if j < 173 then if j < 172 then 179 else 123 else if j < 174 then 246 else 241
          else
            if j < 183 then if j < 179 then if j < 177 then if j < 176 then 255 else 227 else if j < 178 then 219 else 171 else if j < 181 then if j < 180 then 75 else 150 else if j < 182 then 49 else 98 else if j < 187 then if j < 185 then if j < 184 then 196 else 149 else if j < 186 then 55 else 110 else if j < 189 then if j < 188 then 220 else 165 else if j < 190 then 87 else 174
      else
        if j < 223 then
          if j < 207 then
            if j < 199 then if j < 195 then if j < 193 then if j < 192 then 65 else 130 else if j < 194 then 25 else 50 else if j < 197 then if j < 196 then 100 else 200 else if j < 198 then 141 else 7 else if j < 203 then if j < 201 then if j < 200 then 14 else 28 else if j < 202 then 56 else 112 else if j < 205 then if j < 204 then 224 else 221 else if j < 206 then 167 else 83
          else
            if j < 215 then if j < 211 then if j < 209 then if j < 208 then 166 else 81 else if j < 210 then 162 else 89 else if j < 213 then if j < 212 then 178 else 121 else if j < 214 then 242 else 249 else if j < 219 then if j < 217 then if j < 216 then 239 else 195 else if j < 218 then 155 else 43 else if j < 221 then if j < 220 then 86 else 172 else if j < 222 then 69 else 138
        else
          if j < 239 then
            if j < 231 then if j < 227 then if j < 225 then if j < 224 then 9 else 18 else if j < 226 then 36 else 72 else if j < 229 then if j < 228 then 144 else 61 else if j < 230 then 122 else 244 else if j < 235 then if j < 233 then if j < 232 then 245 else 247 else if j < 234 then 243 else 251 else if j < 237 then if j < 236 then 235 else 203 else if j < 238 then 139 else 11
          else
            if j < 247 then if j < 243 then if j < 241 then if j < 240 then 22 else 44 else if j < 242 then 88 else 176 else if j < 245 then if j < 244 then 125 else 250 else if j < 246 then 233 else 207 else if j < 251 then if j < 249 then if j < 248 then 131 else 27 else if j < 250 then 54 else 108 else if j < 253 then if j < 252 then 216 else 173 else if j < 254 then 71 else 142
  }

  /**
   * The logarithm of a non-zero element: the power of 2 that equals it, read
   * from LogTable. The lookup goes through a countdown whose length depends on
   * a; it does not change the value (LogIsTable), but it keeps the solver from
   * expanding the whole table wherever a logarithm of an unknown element
   * appears.
   */
  function Log(a: bv8): nat
    requires a != 0
  {
    LogLookup(a, a as nat)
  }

  function LogLookup(a: bv8, countdown: nat): nat
    requires a != 0
    decreases countdown
  {
    if countdown > 0 then LogLookup(a, countdown - 1) else LogTable(a)
  }

  lemma {:induction false} LogLookupIsTable(a: bv8, countdown: nat)
    requires a != 0
    ensures LogLookup(a, countdown) == LogTable(a)
    decreases countdown
  {
    if countdown > 0 {
      LogLookupIsTable(a, countdown - 1);
    }
  }

  lemma LogIsTable(a: bv8)
    requires a != 0
    ensures Log(a) == LogTable(a)
  {
    LogLookupIsTable(a, a as nat);
  }

  /**
   * The logarithm table: entry a is the power of 2 that equals a, for a != 0,
   * written as a balanced tree of comparisons like AntilogTable.
   */
  function LogTable(a: bv8): nat
    requires a != 0
  {
    var n := a as nat;
    if n < 128 then
      if n < 64 then
        if n < 32 then
          if n < 16 then
            if n < 8 then if n < 4 then if n < 2 then 0 else if n < 3 then 1 else 25 else if n < 6 then if n < 5 then 2 else 50 else if n < 7 then 26 else 198 else if n < 12 then if n < 10 then if n < 9 then 3 else 223 else if n < 11 then 51 else 238 else if n < 14 then if n < 13 then 27 else 104 else if n < 15 then 199 else 75
          else
            if n < 24 then if n < 20 then if n < 18 then if n < 17 then 4 else 100 else if n < 19 then 224 else 14 else if n < 22 then if n < 21 then 52 else 141 else if n < 23 then 239 else 129 else if n < 28 then if n < 26 then if n < 25 then 28 else 193 else if n < 27 then 105 else 248 else if n < 30 then if n < 29 then 200 else 8 else if n < 31 then 76 else 113
        else
          if n < 48 then
            if n < 40 then if n < 36 then if n < 34 then if n < 33 then 5 else 138 else if n < 35 then 101 else 47 else if n < 38 then if n < 37 then 225 else 36 else if n < 39 then 15 else 33 else if n < 44 then if n < 42 then if n < 41 then 53 else 147 else if n < 43 then 142 else 218 else if n < 46 then if n < 45 then 240 else 18 else if n < 47 then 130 else 69
          else
            if n < 56 then if n < 52 then if n < 50 then if n < 49 then 29 else 181 else if n < 51 then 194 else 125 else if n < 54 then if n < 53 then 106 else 39 else if n < 55 then 249 else 185 else if n < 60 then if n < 58 then if n < 57 then 201 else 154 else if n < 59 then 9 else 120 else if n < 62 then if n < 61 then 77 else 228 else if n < 63 then 114 else 166
      else
        if n < 96 then
          if n < 80 then
            if n < 72 then if n < 68 then if n < 66 then if n < 65 then 6 else 191 else if n < 67 then 139 else 98 else if n < 70 then if n < 69 then 102 else 221 else if n < 71 then 48 else 253 else if n < 76 then if n < 74 then if n < 73 then 226 else 152 else if n < 75 then 37 else 179 else if n < 78 then if n < 77 then 16 else 145 else if n < 79 then 34 else 136
          else
            if n < 88 then if n < 84 then if n < 82 then if n < 81 then 54 else 208 else if n < 83 then 148 else 206 else if n < 86 then if n < 85 then 143 else 150 else if n < 87 then 219 else 189 else if n < 92 then if n < 90 then if n < 89 then 241 else 210 else if n < 91 then 19 else 92 else if n < 94 then if n < 93 then 131 else 56 else if n < 95 then 70 else 64
        else
          if n < 112 then
            if n < 104 then if n < 100 then if n < 98 then if n < 97 then 30 else 66 else if n < 99 then 182 else 163 else if n < 102 then if n < 101 then 195 else 72 else if n < 103 then 126 else 110 else if n < 108 then if n < 106 then if n < 105 then 107 else 58 else if n < 107 then 40 else 84 else if n < 110 then if n < 109 then 250 else 133 else if n < 111 then 186 else 61
          else
            if n < 120 then if n < 116 then if n < 114 then if n < 113 then 202 else 94 else if n < 115 then 155 else 159 else if n < 118 then if n < 117 then 10 else 21 else if n < 119 then 121 else 43 else if n < 124 then if n < 122 then if n < 121 then 78 else 212 else if n < 123 then 229 else 172 else if n < 126 then if n < 125 then 115 else 243 else if n < 127 then 167 else 87
    else
      if n < 192 then
        if n < 160 then
          if n < 144 then
            if n < 136 then if n < 132 then if n < 130 then if n < 129 then 7 else 112 else if n < 131 then 192 else 247 else if n < 134 then if n < 133 then 140 else 128 else if n < 135 then 99 else 13 else if n < 140 then if n < 138 then if n < 137 then 103 else 74 else if n < 139 then 222 else 237 else if n < 142 then if n < 141 then 49 else 197 else if n < 143 then 254 else 24
          else
            if n < 152 then if n < 148 then if n < 146 then if n < 145 then 227 else 165 else if n < 147 then 153 else 119 else if n < 150 then if n < 149 then 38 else 184 else if n < 151 then 180 else 124 else if n < 156 then if n < 154 then if n < 153 then 17 else 68 else if n < 155 then 146 else 217 else if n < 158 then if n < 157 then 35 else 32 else if n < 159 then 137 else 46
        else
          if n < 176 then
            if n < 168 then if n < 164 then if n < 162 then if n < 161 then 55 else 63 else if n < 163 then 209 else 91 else if n < 166 then if n < 165 then 149 else 188 else if n < 167 then 207 else 205 else if n < 172 then if n < 170 then if n < 169 then 144 else 135 else if n < 171 then 151 else 178 else if n < 174 then if n < 173 then 220 else 252 else if n < 175 then 190 else 97
          else
            if n < 184 then if n < 180 then if n < 178 then if n < 177 then 242 else 86 else if n < 179 then 211 else 171 else if n < 182 then if n < 181 then 20 else 42 else if n < 183 then 93 else 158 else if n < 188 then if n < 186 then if n < 185 then 132 else 60 else if n < 187 then 57 else 83 else if n < 190 then if n < 189 then 71 else 109 else if n < 191 then 65 else 162
      else
        if n < 224 then
          if n < 208 then
            if n < 200 then if n < 196 then if n < 194 then if n < 193 then 31 else 45 else if n < 195 then 67 else 216 else if n < 198 then if n < 197 then 183 else 123 else if n < 199 then 164 else 118 else if n < 204 then if n < 202 then if n < 201 then 196 else 23 else if n < 203 then 73 else 236 else if n < 206 then if n < 205 then 127 else 12 else if n < 207 then 111 else 246
          else
            if n < 216 then if n < 212 then if n < 210 then if n < 209 then 108 else 161 else if n < 211 then 59 else 82 else if n < 214 then if n < 213 then 41 else 157 else if n < 215 then 85 else 170 else if n < 220 then if n < 218 then if n < 217 then 251 else 96 else if n < 219 then 134 else 177 else if n < 222 then if n < 221 then 187 else 204 else if n < 223 then 62 else 90
        else
          if n < 240 then
            if n < 232 then if n < 228 then if n < 226 then if n < 225 then 203 else 89 else if n < 227 then 95 else 176 else if n < 230 then if n < 229 then 156 else 169 else if n < 231 then 160 else 81 else if n < 236 then if n < 234 then if n < 233 then 11 else 245 else if n < 235 then 22 else 235 else if n < 238 then if n < 237 then 122 else 117 else if n < 239 then 44 else 215
          else
            if n < 248 then if n < 244 then if n < 242 then if n < 241 then 79 else 174 else if n < 243 then 213 else 233 else if n < 246 then if n < 245 then 230 else 231 else if n < 247 then 173 else 232 else if n < 252 then if n < 250 then if n < 249 then 116 else 214 else if n < 251 then 244 else 234 else if n < 254 then if n < 253 then 168 else 80 else if n < 255 then 88 else 175
  }

  // Both tables are checked entry by entry, a chunk at a time.

  lemma AntilogTableFrom0(j: nat)
    requires 0 <= j < 32
    ensures AntilogTable(j) != 0 && LogTable(AntilogTable(j)) == j
    ensures j + 1 < 255 ==> AntilogTable(j + 1) == XTime(AntilogTable(j))
  {
    if j < 16 {
      if j < 8 { if j < 4 { if j < 2 { if j < 1 { } else { } } else { if j < 3 { } else { } } } else { if j < 6 { if j < 5 { } else { } } else { if j < 7 { } else { } } } } else { if j < 12 { if j < 10 { if j < 9 { } else { } } else { if j < 11 { } else { } } } else { if j < 14 { if j < 13 { } else { } } else { if j < 15 { } else { } } } }
    } else {
      if j < 24 { if j < 20 { if j < 18 { if j < 17 { } else { } } else { if j < 19 { } else { } } } else { if j < 22 { if j < 21 { } else { } } else { if j < 23 { } else { } } } } else { if j < 28 { if j < 26 { if j < 25 { } else { } } else { if j < 27 { } else { } } } else { if j < 30 { if j < 29 { } else { } } else { if j < 31 { } else { } } } }
    }
  }

  lemma AntilogTableFrom32(j: nat)
    requires 32 <= j < 64
    ensures AntilogTable(j) != 0 && LogTable(AntilogTable(j)) == j
    ensures j + 1 < 255 ==> AntilogTable(j + 1) == XTime(AntilogTable(j))
  {
    if j < 48 {
      if j < 40 { if j < 36 { if j < 34 { if j < 33 { } else { } } else { if j < 35 { } else { } } } else { if j < 38 { if j < 37 { } else { } } else { if j < 39 { } else { } } } } else { if j < 44 { if j < 42 { if j < 41 { } else { } } else { if j < 43 { } else { } } } else { if j < 46 { if j < 45 { } else { } } else { if j < 47 { } else { } } } }
    } else {
      if j < 56 { if j < 52 { if j < 50 { if j < 49 { } else { } } else { if j < 51 { } else { } } } else { if j < 54 { if j < 53 { } else { } } else { if j < 55 { } else { } } } } else { if j < 60 { if j < 58 { if j < 57 { } else { } } else { if j < 59 { } else { } } } else { if j < 62 { if j < 61 { } else { } } else { if j < 63 { } else { } } } }
    }
  }

  lemma AntilogTableFrom64(j: nat)
    requires 64 <= j < 96
    ensures AntilogTable(j) != 0 && LogTable(AntilogTable(j)) == j
    ensures j + 1 < 255 ==> AntilogTable(j + 1) == XTime(AntilogTable(j))
  {
    if j < 80 {
      if j < 72 { if j < 68 { if j < 66 { if j < 65 { } else { } } else { if j < 67 { } else { } } } else { if j < 70 { if j < 69 { } else { } } else { if j < 71 { } else { } } } } else { if j < 76 { if j < 74 { if j < 73 { } else { } } else { if j < 75 { } else { } } } else { if j < 78 { if j < 77 { } else { } } else { if j < 79 { } else { } } } }
    } else {
      if j < 88 { if j < 84 { if j < 82 { if j < 81 { } else { } } else { if j < 83 { } else { } } } else { if j < 86 { if j < 85 { } else { } } else { if j < 87 { } else { } } } } else { if j < 92 { if j < 90 { if j < 89 { } else { } } else { if j < 91 { } else { } } } else { if j < 94 { if j < 93 { } else { } } else { if j < 95 { } else { } } } }
    }
  }

  lemma AntilogTableFrom96(j: nat)
    requires 96 <= j < 128
    ensures AntilogTable(j) != 0 && LogTable(AntilogTable(j)) == j
    ensures j + 1 < 255 ==> AntilogTable(j + 1) == XTime(AntilogTable(j))
  {
    if j < 112 {
      if j < 104 { if j < 100 { if j < 98 { if j < 97 { } else { } } else { if j < 99 { } else { } } } else { if j < 102 { if j < 101 { } else { } } else { if j < 103 { } else { } } } } else { if j < 108 { if j < 106 { if j < 105 { } else { } } else { if j < 107 { } else { } } } else { if j < 110 { if j < 109 { } else { } } else { if j < 111 { } else { } } } }
    } else {
      if j < 120 { if j < 116 { if j < 114 { if j < 113 { } else { } } else { if j < 115 { } else { } } } else { if j < 118 { if j < 117 { } else { } } else { if j < 119 { } else { } } } } else { if j < 124 { if j < 122 { if j < 121 { } else { } } else { if j < 123 { } else { } } } else { if j < 126 { if j < 125 { } else { } } else { if j < 127 { } else { } } } }
    }
  }

  lemma AntilogTableFrom128(j: nat)
    requires 128 <= j < 160
    ensures AntilogTable(j) != 0 && LogTable(AntilogTable(j)) == j
    ensures j + 1 < 255 ==> AntilogTable(j + 1) == XTime(AntilogTable(j))
  {
    if j < 144 {
      if j < 136 { if j < 132 { if j < 130 { if j < 129 { } else { } } else { if j < 131 { } else { } } } else { if j < 134 { if j < 133 { } else { } } else { if j < 135 { } else { } } } } else { if j < 140 { if j < 138 { if j < 137 { } else { } } else { if j < 139 { } else { } } } else { if j < 142 { if j < 141 { } else { } } else { if j < 143 { } else { } } } }
    } else {
      if j < 152 { if j < 148 { if j < 146 { if j < 145 { } else { } } else { if j < 147 { } else { } } } else { if j < 150 { if j < 149 { } else { } } else { if j < 151 { } else { } } } } else { if j < 156 { if j < 154 { if j < 153 { } else { } } else { if j < 155 { } else { } } } else { if j < 158 { if j < 157 { } else { } } else { if j < 159 { } else { } } } }
    }
  }

  lemma AntilogTableFrom160(j: nat)
    requires 160 <= j < 192
    ensures AntilogTable(j) != 0 && LogTable(AntilogTable(j)) == j
    ensures j + 1 < 255 ==> AntilogTable(j + 1) == XTime(AntilogTable(j))
  {
    if j < 176 {
      if j < 168 { if j < 164 { if j < 162 { if j < 161 { } else { } } else { if j < 163 { } else { } } } else { if j < 166 { if j < 165 { } else { } } else { if j < 167 { } else { } } } } else { if j < 172 { if j < 170 { if j < 169 { } else { } } else { if j < 171 { } else { } } } else { if j < 174 { if j < 173 { } else { } } else { if j < 175 { } else { } } } }
    } else {
      if j < 184 { if j < 180 { if j < 178 { if j < 177 { } else { } } else { if j < 179 { } else { } } } else { if j < 182 { if j < 181 { } else { } } else { if j < 183 { } else { } } } } else { if j < 188 { if j < 186 { if j < 185 { } else { } } else { if j < 187 { } else { } } } else { if j < 190 { if j < 189 { } else { } } else { if j < 191 { } else { } } } }
    }
  }

  lemma AntilogTableFrom192(j: nat)
    requires 192 <= j < 224
    ensures AntilogTable(j) != 0 && LogTable(AntilogTable(j)) == j
    ensures j + 1 < 255 ==> AntilogTable(j + 1) == XTime(AntilogTable(j))
  {
    if j < 208 {
      if j < 200 { if j < 196 { if j < 194 { if j < 193 { } else { } } else { if j < 195 { } else { } } } else { if j < 198 { if j < 197 { } else { } } else { if j < 199 { } else { } } } } else { if j < 204 { if j < 202 { if j < 201 { } else { } } else { if j < 203 { } else { } } } else { if j < 206 { if j < 205 { } else { } } else { if j < 207 { } else { } } } }
    } else {
      if j < 216 { if j < 212 { if j < 210 { if j < 209 { } else { } } else { if j < 211 { } else { } } } else { if j < 214 { if j < 213 { } else { } } else { if j < 215 { } else { } } } } else { if j < 220 { if j < 218 { if j < 217 { } else { } } else { if j < 219 { } else { } } } else { if j < 222 { if j < 221 { } else { } } else { if j < 223 { } else { } } } }
    }
  }

  lemma AntilogTableFrom224(j: nat)
    requires 224 <= j < 255
    ensures AntilogTable(j) != 0 && LogTable(AntilogTable(j)) == j
    ensures j + 1 < 255 ==> AntilogTable(j + 1) == XTime(AntilogTable(j))
    ensures j == 254 ==> XTime(AntilogTable(j)) == 1
  {
    if j < 239 {
      if j < 231 { if j < 227 { if j < 225 { } else { if j < 226 { } else { } } } else { if j < 229 { if j < 228 { } else { } } else { if j < 230 { } else { } } } } else { if j < 235 { if j < 233 { if j < 232 { } else { } } else { if j < 234 { } else { } } } else { if j < 237 { if j < 236 { } else { } } else { if j < 238 { } else { } } } }
    } else {
      if j < 247 { if j < 243 { if j < 241 { if j < 240 { } else { } } else { if j < 242 { } else { } } } else { if j < 245 { if j < 244 { } else { } } else { if j < 246 { } else { } } } } else { if j < 251 { if j < 249 { if j < 248 { } else { } } else { if j < 250 { } else { } } } else { if j < 253 { if j < 252 { } else { } } else { if j < 254 { } else { } } } }
    }
  }

  lemma LogTableFrom1(a: bv8)
    requires 1 <= a as nat < 65
    ensures LogTable(a) < 255 && AntilogTable(LogTable(a)) == a
  {
    var n := a as nat;
    {
      if n < 33 {
        if n < 17 {
          if n < 9 { if n < 5 { if n < 3 { if n < 2 { } else { } } else { if n < 4 { } else { } } } else { if n < 7 { if n < 6 { } else { } } else { if n < 8 { } else { } } } } else { if n < 13 { if n < 11 { if n < 10 { } else { } } else { if n < 12 { } else { } } } else { if n < 15 { if n < 14 { } else { } } else { if n < 16 { } else { } } } }
        } else {
          if n < 25 { if n < 21 { if n < 19 { if n < 18 { } else { } } else { if n < 20 { } else { } } } else { if n < 23 { if n < 22 { } else { } } else { if n < 24 { } else { } } } } else { if n < 29 { if n < 27 { if n < 26 { } else { } } else { if n < 28 { } else { } } } else { if n < 31 { if n < 30 { } else { } } else { if n < 32 { } else { } } } }
        }
      } else {
        if n < 49 {
          if n < 41 { if n < 37 { if n < 35 { if n < 34 { } else { } } else { if n < 36 { } else { } } } else { if n < 39 { if n < 38 { } else { } } else { if n < 40 { } else { } } } } else { if n < 45 { if n < 43 { if n < 42 { } else { } } else { if n < 44 { } else { } } } else { if n < 47 { if n < 46 { } else { } } else { if n < 48 { } else { } } } }
        } else {
          if n < 57 { if n < 53 { if n < 51 { if n < 50 { } else { } } else { if n < 52 { } else { } } } else { if n < 55 { if n < 54 { } else { } } else { if n < 56 { } else { } } } } else { if n < 61 { if n < 59 { if n < 58 { } else { } } else { if n < 60 { } else { } } } else { if n < 63 { if n < 62 { } else { } } else { if n < 64 { } else { } } } }
        }
      }
    }
  }

  lemma LogTableFrom65(a: bv8)
    requires 65 <= a as nat < 129
    ensures LogTable(a) < 255 && AntilogTable(LogTable(a)) == a
  {
    var n := a as nat;
    {
      if n < 97 {
        if n < 81 {
          if n < 73 { if n < 69 { if n < 67 { if n < 66 { } else { } } else { if n < 68 { } else { } } } else { if n < 71 { if n < 70 { } else { } } else { if n < 72 { } else { } } } } else { if n < 77 { if n < 75 { if n < 74 { } else { } } else { if n < 76 { } else { } } } else { if n < 79 { if n < 78 { } else { } } else { if n < 80 { } else { } } } }
        } else {
          if n < 89 { if n < 85 { if n < 83 { if n < 82 { } else { } } else { if n < 84 { } else { } } } else { if n < 87 { if n < 86 { } else { } } else { if n < 88 { } else { } } } } else { if n < 93 { if n < 91 { if n < 90 { } else { } } else { if n < 92 { } else { } } } else { if n < 95 { if n < 94 { } else { } } else { if n < 96 { } else { } } } }
        }
      } else {
        if n < 113 {
          if n < 105 { if n < 101 { if n < 99 { if n < 98 { } else { } } else { if n < 100 { } else { } } } else { if n < 103 { if n < 102 { } else { } } else { if n < 104 { } else { } } } } else { if n < 109 { if n < 107 { if n < 106 { } else { } } else { if n < 108 { } else { } } } else { if n < 111 { if n < 110 { } else { } } else { if n < 112 { } else { } } } }
        } else {
          if n < 121 { if n < 117 { if n < 115 { if n < 114 { } else { } } else { if n < 116 { } else { } } } else { if n < 119 { if n < 118 { } else { } } else { if n < 120 { } else { } } } } else { if n < 125 { if n < 123 { if n < 122 { } else { } } else { if n < 124 { } else { } } } else { if n < 127 { if n < 126 { } else { } } else { if n < 128 { } else { } } } }
        }
      }
    }
  }

  lemma LogTableFrom129(a: bv8)
    requires 129 <= a as nat < 193
    ensures LogTable(a) < 255 && AntilogTable(LogTable(a)) == a
  {
    var n := a as nat;
    {
      if n < 161 {
        if n < 145 {
          if n < 137 { if n < 133 { if n < 131 { if n < 130 { } else { } } else { if n < 132 { } else { } } } else { if n < 135 { if n < 134 { } else { } } else { if n < 136 { } else { } } } } else { if n < 141 { if n < 139 { if n < 138 { } else { } } else { if n < 140 { } else { } } } else { if n < 143 { if n < 142 { } else { } } else { if n < 144 { } else { } } } }
        } else {
          if n < 153 { if n < 149 { if n < 147 { if n < 146 { } else { } } else { if n < 148 { } else { } } } else { if n < 151 { if n < 150 { } else { } } else { if n < 152 { } else { } } } } else { if n < 157 { if n < 155 { if n < 154 { } else { } } else { if n < 156 { } else { } } } else { if n < 159 { if n < 158 { } else { } } else { if n < 160 { } else { } } } }
        }
      } else {
        if n < 177 {
          if n < 169 { if n < 165 { if n < 163 { if n < 162 { } else { } } else { if n < 164 { } else { } } } else { if n < 167 { if n < 166 { } else { } } else { if n < 168 { } else { } } } } else { if n < 173 { if n < 171 { if n < 170 { } else { } } else { if n < 172 { } else { } } } else { if n < 175 { if n < 174 { } else { } } else { if n < 176 { } else { } } } }
        } else {
          if n < 185 { if n < 181 { if n < 179 { if n < 178 { } else { } } else { if n < 180 { } else { } } } else { if n < 183 { if n < 182 { } else { } } else { if n < 184 { } else { } } } } else { if n < 189 { if n < 187 { if n < 186 { } else { } } else { if n < 188 { } else { } } } else { if n < 191 { if n < 190 { } else { } } else { if n < 192 { } else { } } } }
        }
      }
    }
  }

  lemma LogTableFrom193(a: bv8)
    requires 193 <= a as nat < 256
    ensures LogTable(a) < 255 && AntilogTable(LogTable(a)) == a
  {
    var n := a as nat;
    {
      if n < 224 {
        if n < 208 {
          if n < 200 { if n < 196 { if n < 194 { } else { if n < 195 { } else { } } } else { if n < 198 { if n < 197 { } else { } } else { if n < 199 { } else { } } } } else { if n < 204 { if n < 202 { if n < 201 { } else { } } else { if n < 203 { } else { } } } else { if n < 206 { if n < 205 { } else { } } else { if n < 207 { } else { } } } }
        } else {
          if n < 216 { if n < 212 { if n < 210 { if n < 209 { } else { } } else { if n < 211 { } else { } } } else { if n < 214 { if n < 213 { } else { } } else { if n < 215 { } else { } } } } else { if n < 220 { if n < 218 { if n < 217 { } else { } } else { if n < 219 { } else { } } } else { if n < 222 { if n < 221 { } else { } } else { if n < 223 { } else { } } } }
        }
      } else {
        if n < 240 {
          if n < 232 { if n < 228 { if n < 226 { if n < 225 { } else { } } else { if n < 227 { } else { } } } else { if n < 230 { if n < 229 { } else { } } else { if n < 231 { } else { } } } } else { if n < 236 { if n < 234 { if n < 233 { } else { } } else { if n < 235 { } else { } } } else { if n < 238 { if n < 237 { } else { } } else { if n < 239 { } else { } } } }
        } else {
          if n < 248 { if n < 244 { if n < 242 { if n < 241 { } else { } } else { if n < 243 { } else { } } } else { if n < 246 { if n < 245 { } else { } } else { if n < 247 { } else { } } } } else { if n < 252 { if n < 250 { if n < 249 { } else { } } else { if n < 251 { } else { } } } else { if n < 254 { if n < 253 { } else { } } else { if n < 255 { } else { } } } }
        }
      }
    }
  }

  lemma AntilogTableEntry(j: nat)
    requires j < 255
    ensures AntilogTable(j) != 0 && LogTable(AntilogTable(j)) == j
  {
    if j < 32 { AntilogTableFrom0(j); }
    else if j < 64 { AntilogTableFrom32(j); }
    else if j < 96 { AntilogTableFrom64(j); }
    else if j < 128 { AntilogTableFrom96(j); }
    else if j < 160 { AntilogTableFrom128(j); }
    else if j < 192 { AntilogTableFrom160(j); }
    else if j < 224 { AntilogTableFrom192(j); }
    else { AntilogTableFrom224(j); }
  }

  lemma AntilogTableStep(j: nat)
    requires j < 255
    ensures j + 1 < 255 ==> AntilogTable(j + 1) == XTime(AntilogTable(j))
    ensures j == 254 ==> XTime(AntilogTable(j)) == 1
  {
    if j < 32 { AntilogTableFrom0(j); }
    else if j < 64 { AntilogTableFrom32(j); }
    else if j < 96 { AntilogTableFrom64(j); }
    else if j < 128 { AntilogTableFrom96(j); }
    else if j < 160 { AntilogTableFrom128(j); }
    else if j < 192 { AntilogTableFrom160(j); }
    else if j < 224 { AntilogTableFrom192(j); }
    else { AntilogTableFrom224(j); }
  }

  /** The entries of the antilogarithm table are non-zero and inverted by Log. */
  lemma AntilogEntry(j: nat)
    requires j < 255
    ensures Antilog(j) != 0 && Log(Antilog(j)) == j
  {
    AntilogTableEntry(j);
    AntilogIsTable(j);
    LogIsTable(AntilogTable(j));
  }

  /** Each entry of the antilogarithm table doubles the previous one, and doubling the last gives 1. */
  lemma DoubleAntilog(j: nat)
    requires j < 255
    ensures j + 1 < 255 ==> XTime(Antilog(j)) == Antilog(j + 1)
    ensures j == 254 ==> XTime(Antilog(j)) == 1
  {
    AntilogTableStep(j);
    AntilogIsTable(j);
    if j + 1 < 255 {
      AntilogIsTable(j + 1);
    }
  }

  lemma LogTableEntry(a: bv8)
    requires a != 0
    ensures LogTable(a) < 255 && AntilogTable(LogTable(a)) == a
  {
    if a as nat < 65 { LogTableFrom1(a); }
    else if a as nat < 129 { LogTableFrom65(a); }
    else if a as nat < 193 { LogTableFrom129(a); }
    else { LogTableFrom193(a); }
  }

  /** Every non-zero element has a logarithm below 255, and Antilog inverts it. */
  lemma LogEntry(a: bv8)
    requires a != 0
    ensures Log(a) < 255 && Antilog(Log(a)) == a
  {
    LogTableEntry(a);
    LogIsTable(a);
    AntilogIsTable(LogTable(a));
  }

  /** The antilogarithm is the sequence of successive doublings. */
  lemma {:induction false} AntilogIsExp(j: nat)
    requires j < 255
    ensures Antilog(j) == Exp(j)
  {
    if j > 0 {
      AntilogIsExp(j - 1);
      DoubleAntilog(j - 1);
    }
  }

  /** Log inverts Exp on 0..254, so Exp is one-to-one there and never 0. */
  lemma LogOfExp(j: nat)
    requires j < 255
    ensures Exp(j) != 0 && Log(Exp(j)) == j
  {
    AntilogIsExp(j);
    AntilogEntry(j);
  }

  /** Exp inverts Log: every non-zero element is a power of 2. */
  lemma ExpOfLog(a: bv8)
    requires a != 0
    ensures Log(a) < 255 && Exp(Log(a)) == a
  {
    LogEntry(a);
    AntilogIsExp(Log(a));
  }

  /** 2 has multiplicative order 255: it is a primitive element. */
  lemma ExpCycle()
    ensures Exp(255) == 1
  {
    AntilogIsExp(254);
    DoubleAntilog(254);
  }

  /** Exp is periodic with period 255. */
  lemma {:induction false} ExpPeriodic(j: nat)
    ensures Exp(j + 255) == Exp(j)
  {
    if j == 0 {
      ExpCycle();
    } else {
      ExpPeriodic(j - 1);
    }
  }

  lemma ModStep(j: nat)
    requires j >= 255
    ensures (j - 255) % 255 == j % 255
  {
  }

  lemma {:induction false} ExpModulo(j: nat)
    ensures Exp(j) == Exp(j % 255)
  {
    if j >= 255 {
      ExpPeriodic(j - 255);
      ExpModulo(j - 255);
      ModStep(j);
    }
  }

  /** Field multiplication by logarithms: 2^((log a + log b) mod 255), and 0 when a factor is 0. */
  function Mul(a: bv8, b: bv8): (c: bv8)
    ensures c == 0 <==> a == 0 || b == 0
  {
    if a == 0 || b == 0 then 0
    else
      var j := (Log(a) + Log(b)) % 255;
      LogOfExp(j);
      Exp(j)
  }

  lemma ModCancel(x: nat, y: nat)
    requires x < 255 && y < 255
    ensures ((x + 255 - y) % 255 + y) % 255 == x
  {
  }

  /**
   * Field division by logarithms: 2^((log a - log b) mod 255), and 0 when a is
   * 0. The divisor must not be 0. The quotient times the divisor is the dividend.
   */
  function Div(a: bv8, b: bv8): (q: bv8)
    requires b != 0
    ensures Mul(q, b) == a && Mul(b, q) == a
  {
    if a == 0 then 0
    else
      ExpOfLog(a);
      ExpOfLog(b);
      var j := (Log(a) + 255 - Log(b)) % 255;
      LogOfExp(j);
      ModCancel(Log(a), Log(b));
      Exp(j)
  }

  /** a raised to the power n by repeated multiplication; a^0 is 1. */
  function Power(a: bv8, n: nat): bv8
  {
    if n == 0 then 1 else Mul(a, Power(a, n - 1))
  }

  /** A power is 0 exactly when the base is 0 and the exponent is positive. */
  lemma {:induction false} PowerNonZero(a: bv8, n: nat)
    ensures Power(a, n) == 0 <==> a == 0 && n > 0
  {
    if n > 0 {
      PowerNonZero(a, n - 1);
    }
  }

  lemma MulCommutes(a: bv8, b: bv8)
    ensures Mul(a, b) == Mul(b, a)
  {
  }

  lemma MulOne(a: bv8)
    ensures Mul(a, 1) == a && Mul(1, a) == a
  {
    if a != 0 {
      ExpOfLog(a);
      LogIsTable(1);
    }
  }

  /** Multiplying by 2 is XTime: the log tables agree with the reduction modulo 0x11D. */
  lemma MulByTwo(a: bv8)
    ensures Mul(2, a) == XTime(a)
  {
    if a != 0 {
      ExpOfLog(a);
      LogIsTable(2);
      if Log(a) == 254 {
        ExpCycle();
      }
    }
  }

  /** Powers of the primitive element are the successive doublings, with period 255. */
  lemma {:induction false} PowerOfTwo(n: nat)
    ensures Power(2, n) == Exp(n % 255)
  {
    if n > 0 {
      PowerOfTwo(n - 1);
      ExpModulo(n - 1);
      MulByTwo(Exp(n - 1));
      ExpModulo(n);
    }
  }
}
