/** Radius by radius: outside `Fits` the loop along the longer radius fails, so `Fits` is
    the exact condition for the code to plot an ellipse whole. */
module EllipseCondition {
  import opened Painting
  import opened Circles
  import opened EllipseCurves
  import opened EllipseBounds
  import opened EllipseRanges
  import opened EllipseExactness
  import opened EllipseLines

  /** The pair fails by its stop value or in line v. */
  predicate Settled(m: nat, w: nat, v: nat) {
    I16(2 * ((w * w) * m)) < 0 || GoesWrong(m, w, v)
  }

  predicate SettledUpTo(m: nat, w: nat, b: nat, v: nat) {
    w > b || Settled(m, w, v)
  }

  /** ... and so do all pairs with the longer radii a..b, seven at most. */
  predicate AllSettled(m: nat, a: nat, b: nat, v: nat) {
    && b < a + 7
    && SettledUpTo(m, a, b, v)
    && SettledUpTo(m, a + 1, b, v)
    && SettledUpTo(m, a + 2, b, v)
    && SettledUpTo(m, a + 3, b, v)
    && SettledUpTo(m, a + 4, b, v)
    && SettledUpTo(m, a + 5, b, v)
    && SettledUpTo(m, a + 6, b, v)
  }

  lemma SettledFails(m: nat, a: nat, b: nat, v: nat, w: nat)
    requires AllSettled(m, a, b, v) && a <= w <= b
    ensures Fails(m, w)
  {
    assert Settled(m, w, v);
  }

  /** The shorter radii for which no one line serves all longer ones. */
  predicate Single(m: nat) {
    m == 63 || m == 91 || m == 105 || m == 109 || m == 111 || m == 114 || m == 127 || m == 209 || m == 229 || m == 245
  }

  lemma SlimFails(m: nat, w: nat)
    requires 2 <= m <= 32 && (w * w) * m >= 32768
    ensures Fails(m, w)
  {
    if m <= 2 {
      FailsWhenSlim(m, w, 2, 2, 64);
    } else if m <= 3 {
      FailsWhenSlim(m, w, 3, 3, 43);
    } else if m <= 5 {
      FailsWhenSlim(m, w, 4, 5, 32);
    } else if m <= 7 {
      FailsWhenSlim(m, w, 6, 7, 22);
    } else if m <= 10 {
      FailsWhenSlim(m, w, 8, 10, 16);
    } else if m <= 14 {
      FailsWhenSlim(m, w, 11, 14, 12);
    } else if m <= 19 {
      FailsWhenSlim(m, w, 15, 19, 9);
    } else if m <= 25 {
      FailsWhenSlim(m, w, 20, 25, 7);
    } else {
      FailsWhenSlim(m, w, 26, 32, 5);
    }
  }

  lemma RangeFails1(m: nat, w: nat)
    requires 33 <= m <= 119 && m <= w && !Single(m)
    ensures Fails(m, w)
  {
    if m <= 45 {
      FailsInWindow(m, w, 33, 45, 4, 0);
    } else if m <= 60 {
      FailsInWindow(m, w, 46, 60, 3, 0);
    } else if m <= 62 {
      FailsInWindow(m, w, 61, 62, 5, 1);
    } else if m <= 90 {
      FailsInWindow(m, w, 64, 90, 2, 0);
    } else if m <= 93 {
      FailsInWindow(m, w, 92, 93, 7, 6);
    } else if m <= 95 {
      FailsInWindow(m, w, 94, 95, 5, 3);
    } else if m <= 104 {
      FailsInWindow(m, w, 96, 104, 3, 1);
    } else if m <= 108 {
      FailsInWindow(m, w, 106, 108, 5, 4);
    } else if m <= 110 {
      FailsInWindow(m, w, 110, 110, 10, 18);
    } else if m <= 113 {
      FailsInWindow(m, w, 112, 113, 8, 12);
    } else if m <= 116 {
      FailsInWindow(m, w, 115, 116, 6, 7);
    } else {
      FailsInWindow(m, w, 117, 119, 4, 3);
    }
  }

  lemma RangeFails2(m: nat, w: nat)
    requires 120 <= m <= 189 && m <= w && !Single(m)
    ensures Fails(m, w)
  {
    if m <= 120 {
      FailsInWindow(m, w, 120, 120, 5, 5);
    } else if m <= 121 {
      FailsInWindow(m, w, 121, 121, 8, 14);
    } else if m <= 122 {
      FailsInWindow(m, w, 122, 122, 9, 18);
    } else if m <= 124 {
      FailsInWindow(m, w, 123, 124, 6, 8);
    } else if m <= 125 {
      FailsInWindow(m, w, 125, 125, 8, 15);
    } else if m <= 126 {
      FailsInWindow(m, w, 126, 126, 11, 29);
    } else if m <= 181 {
      FailsInWindow(m, w, 128, 181, 1, 0);
    } else if m <= 182 {
      FailsInWindow(m, w, 182, 182, 8, 32);
    } else if m <= 183 {
      FailsInWindow(m, w, 183, 183, 6, 18);
    } else if m <= 186 {
      FailsInWindow(m, w, 184, 186, 4, 8);
    } else if m <= 188 {
      FailsInWindow(m, w, 187, 188, 5, 13);
    } else {
      FailsInWindow(m, w, 189, 189, 12, 78);
    }
  }

  lemma RangeFails3(m: nat, w: nat)
    requires 190 <= m <= 217 && m <= w && !Single(m)
    ensures Fails(m, w)
  {
    if m <= 190 {
      FailsInWindow(m, w, 190, 190, 8, 35);
    } else if m <= 191 {
      FailsInWindow(m, w, 191, 191, 7, 27);
    } else if m <= 202 {
      FailsInWindow(m, w, 192, 202, 2, 2);
    } else if m <= 203 {
      FailsInWindow(m, w, 203, 203, 13, 106);
    } else if m <= 204 {
      FailsInWindow(m, w, 204, 204, 9, 51);
    } else if m <= 207 {
      FailsInWindow(m, w, 205, 207, 4, 10);
    } else if m <= 208 {
      FailsInWindow(m, w, 208, 208, 7, 32);
    } else if m <= 210 {
      FailsInWindow(m, w, 210, 210, 10, 67);
    } else if m <= 211 {
      FailsInWindow(m, w, 211, 211, 6, 24);
    } else if m <= 212 {
      FailsInWindow(m, w, 212, 212, 14, 134);
    } else if m <= 214 {
      FailsInWindow(m, w, 213, 214, 5, 17);
    } else {
      FailsInWindow(m, w, 215, 217, 3, 6);
    }
  }

  lemma RangeFails4(m: nat, w: nat)
    requires 218 <= m <= 241 && m <= w && !Single(m)
    ensures Fails(m, w)
  {
    if m <= 218 {
      FailsInWindow(m, w, 218, 218, 8, 46);
    } else if m <= 220 {
      FailsInWindow(m, w, 219, 220, 5, 18);
    } else if m <= 221 {
      FailsInWindow(m, w, 221, 221, 9, 60);
    } else if m <= 222 {
      FailsInWindow(m, w, 222, 222, 12, 108);
    } else if m <= 223 {
      FailsInWindow(m, w, 223, 223, 6, 27);
    } else if m <= 226 {
      FailsInWindow(m, w, 224, 226, 4, 12);
    } else if m <= 227 {
      FailsInWindow(m, w, 227, 227, 6, 28);
    } else if m <= 228 {
      FailsInWindow(m, w, 228, 228, 9, 64);
    } else if m <= 233 {
      FailsInWindow(m, w, 230, 233, 3, 7);
    } else if m <= 239 {
      FailsInWindow(m, w, 234, 239, 2, 3);
    } else if m <= 240 {
      FailsInWindow(m, w, 240, 240, 8, 56);
    } else {
      FailsInWindow(m, w, 241, 241, 7, 43);
    }
  }

  lemma RangeFails5(m: nat, w: nat)
    requires 242 <= m <= 255 && m <= w && !Single(m)
    ensures Fails(m, w)
  {
    if m <= 243 {
      FailsInWindow(m, w, 242, 243, 4, 14);
    } else if m <= 244 {
      FailsInWindow(m, w, 244, 244, 15, 204);
    } else if m <= 248 {
      FailsInWindow(m, w, 246, 248, 3, 8);
    } else if m <= 249 {
      FailsInWindow(m, w, 249, 249, 7, 46);
    } else if m <= 251 {
      FailsInWindow(m, w, 250, 251, 4, 15);
    } else if m <= 252 {
      FailsInWindow(m, w, 252, 252, 7, 47);
    } else if m <= 253 {
      FailsInWindow(m, w, 253, 253, 5, 24);
    } else if m <= 254 {
      FailsInWindow(m, w, 254, 254, 6, 35);
    } else {
      FailsInWindow(m, w, 255, 255, 9, 80);
    }
  }

  lemma Fails63To69(w: nat) requires 63 <= w <= 69 ensures Fails(63, w) {
    SettledFails(63, 63, 69, 2, w);
  }

  lemma Fails63To76(w: nat) requires 70 <= w <= 76 ensures Fails(63, w) {
    SettledFails(63, 70, 76, 2, w);
  }

  lemma Fails63To83(w: nat) requires 77 <= w <= 83 ensures Fails(63, w) {
    SettledFails(63, 77, 83, 2, w);
  }

  lemma Fails63To87(w: nat) requires 84 <= w <= 87 ensures Fails(63, w) {
    SettledFails(63, 84, 87, 1, w);
  }

  lemma Fails63(w: nat)
    requires 63 <= w <= 255
    ensures Fails(63, w)
  {
    if w <= 69 {
      Fails63To69(w);
    } else if w <= 76 {
      Fails63To76(w);
    } else if w <= 83 {
      Fails63To83(w);
    } else if w <= 87 {
      Fails63To87(w);
    } else {
      FailsFrom(63, w, 88, 11, 7);
    }
  }

  lemma Fails91To97(w: nat) requires 91 <= w <= 97 ensures Fails(91, w) {
    SettledFails(91, 91, 97, 1, w);
  }

  lemma Fails91To104(w: nat) requires 98 <= w <= 104 ensures Fails(91, w) {
    SettledFails(91, 98, 104, 5, w);
  }

  lemma Fails91To105(w: nat) requires 105 <= w <= 105 ensures Fails(91, w) {
    SettledFails(91, 105, 105, 1, w);
  }

  lemma Fails91(w: nat)
    requires 91 <= w <= 255
    ensures Fails(91, w)
  {
    if w <= 97 {
      Fails91To97(w);
    } else if w <= 104 {
      Fails91To104(w);
    } else if w <= 105 {
      Fails91To105(w);
    } else {
      FailsFrom(91, w, 106, 11, 15);
    }
  }

  lemma Fails105To111(w: nat) requires 105 <= w <= 111 ensures Fails(105, w) {
    SettledFails(105, 105, 111, 1, w);
  }

  lemma Fails105To112(w: nat) requires 112 <= w <= 112 ensures Fails(105, w) {
    SettledFails(105, 112, 112, 1, w);
  }

  lemma Fails105(w: nat)
    requires 105 <= w <= 255
    ensures Fails(105, w)
  {
    if w <= 111 {
      Fails105To111(w);
    } else if w <= 112 {
      Fails105To112(w);
    } else {
      FailsFrom(105, w, 113, 11, 20);
    }
  }

  lemma Fails109To115(w: nat) requires 109 <= w <= 115 ensures Fails(109, w) {
    SettledFails(109, 109, 115, 1, w);
  }

  lemma Fails109To122(w: nat) requires 116 <= w <= 122 ensures Fails(109, w) {
    SettledFails(109, 116, 122, 1, w);
  }

  lemma Fails109To129(w: nat) requires 123 <= w <= 129 ensures Fails(109, w) {
    SettledFails(109, 123, 129, 1, w);
  }

  lemma Fails109To136(w: nat) requires 130 <= w <= 136 ensures Fails(109, w) {
    SettledFails(109, 130, 136, 1, w);
  }

  lemma Fails109To143(w: nat) requires 137 <= w <= 143 ensures Fails(109, w) {
    SettledFails(109, 137, 143, 1, w);
  }

  lemma Fails109To150(w: nat) requires 144 <= w <= 150 ensures Fails(109, w) {
    SettledFails(109, 144, 150, 1, w);
  }

  lemma Fails109To157(w: nat) requires 151 <= w <= 157 ensures Fails(109, w) {
    SettledFails(109, 151, 157, 1, w);
  }

  lemma Fails109To164(w: nat) requires 158 <= w <= 164 ensures Fails(109, w) {
    SettledFails(109, 158, 164, 1, w);
  }

  lemma Fails109To167(w: nat) requires 165 <= w <= 167 ensures Fails(109, w) {
    SettledFails(109, 165, 167, 1, w);
  }

  lemma Fails109(w: nat)
    requires 109 <= w <= 255
    ensures Fails(109, w)
  {
    if w <= 115 {
      Fails109To115(w);
    } else if w <= 122 {
      Fails109To122(w);
    } else if w <= 129 {
      Fails109To129(w);
    } else if w <= 136 {
      Fails109To136(w);
    } else if w <= 143 {
      Fails109To143(w);
    } else if w <= 150 {
      Fails109To150(w);
    } else if w <= 157 {
      Fails109To157(w);
    } else if w <= 164 {
      Fails109To164(w);
    } else if w <= 167 {
      Fails109To167(w);
    } else {
      FailsFrom(109, w, 168, 16, 46);
    }
  }

  lemma Fails111To117(w: nat) requires 111 <= w <= 117 ensures Fails(111, w) {
    SettledFails(111, 111, 117, 1, w);
  }

  lemma Fails111To124(w: nat) requires 118 <= w <= 124 ensures Fails(111, w) {
    SettledFails(111, 118, 124, 1, w);
  }

  lemma Fails111To131(w: nat) requires 125 <= w <= 131 ensures Fails(111, w) {
    SettledFails(111, 125, 131, 1, w);
  }

  lemma Fails111To138(w: nat) requires 132 <= w <= 138 ensures Fails(111, w) {
    SettledFails(111, 132, 138, 1, w);
  }

  lemma Fails111To145(w: nat) requires 139 <= w <= 145 ensures Fails(111, w) {
    SettledFails(111, 139, 145, 1, w);
  }

  lemma Fails111To152(w: nat) requires 146 <= w <= 152 ensures Fails(111, w) {
    SettledFails(111, 146, 152, 1, w);
  }

  lemma Fails111To158(w: nat) requires 153 <= w <= 158 ensures Fails(111, w) {
    SettledFails(111, 153, 158, 1, w);
  }

  lemma Fails111(w: nat)
    requires 111 <= w <= 255
    ensures Fails(111, w)
  {
    if w <= 117 {
      Fails111To117(w);
    } else if w <= 124 {
      Fails111To124(w);
    } else if w <= 131 {
      Fails111To131(w);
    } else if w <= 138 {
      Fails111To138(w);
    } else if w <= 145 {
      Fails111To145(w);
    } else if w <= 152 {
      Fails111To152(w);
    } else if w <= 158 {
      Fails111To158(w);
    } else {
      FailsFrom(111, w, 159, 15, 42);
    }
  }

  lemma Fails114To120(w: nat) requires 114 <= w <= 120 ensures Fails(114, w) {
    SettledFails(114, 114, 120, 1, w);
  }

  lemma Fails114To127(w: nat) requires 121 <= w <= 127 ensures Fails(114, w) {
    SettledFails(114, 121, 127, 1, w);
  }

  lemma Fails114To134(w: nat) requires 128 <= w <= 134 ensures Fails(114, w) {
    SettledFails(114, 128, 134, 1, w);
  }

  lemma Fails114To141(w: nat) requires 135 <= w <= 141 ensures Fails(114, w) {
    SettledFails(114, 135, 141, 1, w);
  }

  lemma Fails114To148(w: nat) requires 142 <= w <= 148 ensures Fails(114, w) {
    SettledFails(114, 142, 148, 1, w);
  }

  lemma Fails114To155(w: nat) requires 149 <= w <= 155 ensures Fails(114, w) {
    SettledFails(114, 149, 155, 1, w);
  }

  lemma Fails114To162(w: nat) requires 156 <= w <= 162 ensures Fails(114, w) {
    SettledFails(114, 156, 162, 1, w);
  }

  lemma Fails114To169(w: nat) requires 163 <= w <= 169 ensures Fails(114, w) {
    SettledFails(114, 163, 169, 1, w);
  }

  lemma Fails114To176(w: nat) requires 170 <= w <= 176 ensures Fails(114, w) {
    SettledFails(114, 170, 176, 1, w);
  }

  lemma Fails114To181(w: nat) requires 177 <= w <= 181 ensures Fails(114, w) {
    SettledFails(114, 177, 181, 1, w);
  }

  lemma Fails114(w: nat)
    requires 114 <= w <= 255
    ensures Fails(114, w)
  {
    if w <= 120 {
      Fails114To120(w);
    } else if w <= 127 {
      Fails114To127(w);
    } else if w <= 134 {
      Fails114To134(w);
    } else if w <= 141 {
      Fails114To141(w);
    } else if w <= 148 {
      Fails114To148(w);
    } else if w <= 155 {
      Fails114To155(w);
    } else if w <= 162 {
      Fails114To162(w);
    } else if w <= 169 {
      Fails114To169(w);
    } else if w <= 176 {
      Fails114To176(w);
    } else if w <= 181 {
      Fails114To181(w);
    } else {
      FailsFrom(114, w, 182, 17, 57);
    }
  }

  lemma Fails127To133(w: nat) requires 127 <= w <= 133 ensures Fails(127, w) {
    SettledFails(127, 127, 133, 1, w);
  }

  lemma Fails127To135(w: nat) requires 134 <= w <= 135 ensures Fails(127, w) {
    SettledFails(127, 134, 135, 1, w);
  }

  lemma Fails127(w: nat)
    requires 127 <= w <= 255
    ensures Fails(127, w)
  {
    if w <= 133 {
      Fails127To133(w);
    } else if w <= 135 {
      Fails127To135(w);
    } else {
      FailsFrom(127, w, 136, 12, 35);
    }
  }

  lemma Fails209To213(w: nat) requires 209 <= w <= 213 ensures Fails(209, w) {
    SettledFails(209, 209, 213, 3, w);
  }

  lemma Fails209To216(w: nat) requires 214 <= w <= 216 ensures Fails(209, w) {
    SettledFails(209, 214, 216, 15, w);
  }

  lemma Fails209To217(w: nat) requires 217 <= w <= 217 ensures Fails(209, w) {
    SettledFails(209, 217, 217, 3, w);
  }

  lemma Fails209To224(w: nat) requires 218 <= w <= 224 ensures Fails(209, w) {
    SettledFails(209, 218, 224, 16, w);
  }

  lemma Fails209To231(w: nat) requires 225 <= w <= 231 ensures Fails(209, w) {
    SettledFails(209, 225, 231, 3, w);
  }

  lemma Fails209To238(w: nat) requires 232 <= w <= 238 ensures Fails(209, w) {
    SettledFails(209, 232, 238, 17, w);
  }

  lemma Fails209To245(w: nat) requires 239 <= w <= 245 ensures Fails(209, w) {
    SettledFails(209, 239, 245, 17, w);
  }

  lemma Fails209To248(w: nat) requires 246 <= w <= 248 ensures Fails(209, w) {
    SettledFails(209, 246, 248, 18, w);
  }

  lemma Fails209To251(w: nat) requires 249 <= w <= 251 ensures Fails(209, w) {
    SettledFails(209, 249, 251, 3, w);
  }

  lemma Fails209To253(w: nat) requires 252 <= w <= 253 ensures Fails(209, w) {
    SettledFails(209, 252, 253, 18, w);
  }

  lemma Fails209To255(w: nat) requires 254 <= w <= 255 ensures Fails(209, w) {
    SettledFails(209, 254, 255, 3, w);
  }

  lemma Fails209(w: nat)
    requires 209 <= w <= 255
    ensures Fails(209, w)
  {
    if w <= 213 {
      Fails209To213(w);
    } else if w <= 216 {
      Fails209To216(w);
    } else if w <= 217 {
      Fails209To217(w);
    } else if w <= 224 {
      Fails209To224(w);
    } else if w <= 231 {
      Fails209To231(w);
    } else if w <= 238 {
      Fails209To238(w);
    } else if w <= 245 {
      Fails209To245(w);
    } else if w <= 248 {
      Fails209To248(w);
    } else if w <= 251 {
      Fails209To251(w);
    } else if w <= 253 {
      Fails209To253(w);
    } else {
      Fails209To255(w);
    }
  }

  lemma Fails229To235(w: nat) requires 229 <= w <= 235 ensures Fails(229, w) {
    SettledFails(229, 229, 235, 2, w);
  }

  lemma Fails229To242(w: nat) requires 236 <= w <= 242 ensures Fails(229, w) {
    SettledFails(229, 236, 242, 2, w);
  }

  lemma Fails229To249(w: nat) requires 243 <= w <= 249 ensures Fails(229, w) {
    SettledFails(229, 243, 249, 12, w);
  }

  lemma Fails229To255(w: nat) requires 250 <= w <= 255 ensures Fails(229, w) {
    SettledFails(229, 250, 255, 12, w);
  }

  lemma Fails229(w: nat)
    requires 229 <= w <= 255
    ensures Fails(229, w)
  {
    if w <= 235 {
      Fails229To235(w);
    } else if w <= 242 {
      Fails229To242(w);
    } else if w <= 249 {
      Fails229To249(w);
    } else {
      Fails229To255(w);
    }
  }

  lemma Fails245To250(w: nat) requires 245 <= w <= 250 ensures Fails(245, w) {
    SettledFails(245, 245, 250, 3, w);
  }

  lemma Fails245(w: nat)
    requires 245 <= w <= 255
    ensures Fails(245, w)
  {
    if w <= 250 {
      Fails245To250(w);
    } else {
      FailsFrom(245, w, 251, 16, 234);
    }
  }

  lemma SingleFails(m: nat, w: nat)
    requires Single(m) && m <= w <= 255
    ensures Fails(m, w)
  {
    match m
    case 63 => Fails63(w);
    case 91 => Fails91(w);
    case 105 => Fails105(w);
    case 109 => Fails109(w);
    case 111 => Fails111(w);
    case 114 => Fails114(w);
    case 127 => Fails127(w);
    case 209 => Fails209(w);
    case 229 => Fails229(w);
    case _ => Fails245(w);
  }

  lemma ThickFails(m: nat, w: nat)
    requires 33 <= m <= w <= 255
    ensures Fails(m, w)
  {
    if Single(m) {
      SingleFails(m, w);
    } else if m <= 119 {
      RangeFails1(m, w);
    } else if m <= 189 {
      RangeFails2(m, w);
    } else if m <= 217 {
      RangeFails3(m, w);
    } else if m <= 241 {
      RangeFails4(m, w);
    } else {
      RangeFails5(m, w);
    }
  }

  /** With radius 1 the change of err has wrapped to a positive number. */
  lemma RadiusOneFails(w: nat)
    requires 182 <= w <= 255
    ensures Fails(1, w)
  {
    Products(182, w);
    Products(w, 255);
    assert ChangeAt(1, w) > 0 && ErrAt(1, 1) == 1;
    assert GoesWrong(1, w, 1);
  }

  /** The stop value is negative up to the double of the bound, and beyond that a line
      goes wrong. */
  lemma UnfitFails(m: nat, w: nat)
    requires 1 <= m <= w <= 255 && !Fits(m, w)
    ensures Fails(m, w)
  {
    FitsBounds(m, w);
    var z := (w * w) * m;
    SmallerProduct(m, w);
    if z >= 16384 {
      if z < 32768 {
        assert I16(2 * z) < 0;
      } else if m == 1 {
        if w < 182 {
          Products(w, 181);
        }
        RadiusOneFails(w);
      } else if m <= 32 {
        SlimFails(m, w);
      } else {
        ThickFails(m, w);
      }
    } else {
      UBound(w * w, m, 1);
    }
  }

  lemma FailsIsNotWhole(m: byte, w: byte, us: seq<int>)
    requires m > 0 && w > 0 && Fails(m, w)
    ensures !PlotsWhole(m, w, us)
  {
    if I16(2 * ((w * w) * m)) < 0 {
      NothingIsNotWhole(m, w, us);
    } else {
      var v :| GoesWrong(m, w, v);
      WrongIsNotWhole(m, w, us, v);
    }
  }

  lemma LineOfRun(p: nat, q: nat, ru: nat, rv: nat, us: seq<int>, k: nat)
    requires Run(p, q, ru, rv, us) && k < |us|
    ensures us[k] >= 0 && us[k] == RunNext(p, q, ru, us[..k]) && k <= rv
  {
    assert InRun(p, q, ru, rv, us, k);
  }

  /** A run of a straight line has one line only. */
  lemma FlatRun(p: nat, us: seq<int>, rv: nat, k: nat)
    requires Run(p, 0, 0, rv, us) && p > 0 && k < |us|
    ensures k == 0 && us[0] == 0
  {
    LineOfRun(p, 0, 0, rv, us, 0);
    if k > 0 {
      FlatCurve(p);
      assert us[..1] == [us[0]];
      LineOfRun(p, 0, 0, rv, us, 1);
    }
  }

  lemma SteepRun(q: nat, us: seq<int>, ru: nat, k: nat)
    requires Run(0, q, ru, 0, us) && k < |us|
    ensures k == 0 && us[0] == ru
  {
    LineOfRun(0, q, ru, 0, us, 0);
    LineOfRun(0, q, ru, 0, us, k);
  }

  /** The whole run of a straight line is one point. */
  lemma WholeLine(r: nat, us: seq<int>, vs: seq<int>)
    requires r > 0 && WholeRun(0, r * r, r, 0, us) && WholeRun(r * r, 0, 0, r, vs)
    ensures us == [r] && vs == [0]
  {
    Mul(1, r, r);
    SteepRun(r * r, us, r, |us| - 1);
    FlatRun(r * r, vs, r, |vs| - 1);
  }

  lemma LineUnfit(r: byte, us: seq<int>, vs: seq<int>)
    requires r > 0 && PlotsWhole(r, 0, us) && PlotsWhole(0, r, vs)
    ensures Fits(r, 0) && Fits(0, r)
  {
    WholeLine(r, us, vs);
    LineIsWholeExactly(r);
  }

  /** The code plots an ellipse as it is over unbounded integers exactly for the radii
      whose starting values fit. */
  lemma WholeExactlyIfFits(rx: byte, ry: byte)
    requires rx > 0 || ry > 0
    ensures DrawnWhole(rx, ry) <==> Fits(rx, ry)
  {
    FitsBounds(rx, ry);
    FitsBounds(ry, rx);
    if Fits(rx, ry) {
      var us := CodeRunIsWhole(rx, ry);
      var vs := CodeRunIsWhole(ry, rx);
      assert PlotsWhole(rx, ry, us) && PlotsWhole(ry, rx, vs);
    } else if DrawnWhole(rx, ry) {
      var us, vs :| PlotsWhole(rx, ry, us) && PlotsWhole(ry, rx, vs);
      if ry == 0 {
        LineUnfit(rx, us, vs);
      } else if rx == 0 {
        LineUnfit(ry, vs, us);
      } else if rx <= ry {
        UnfitFails(rx, ry);
        FailsIsNotWhole(rx, ry, us);
      } else {
        UnfitFails(ry, rx);
        FailsIsNotWhole(ry, rx, vs);
      }
    }
  }
}
