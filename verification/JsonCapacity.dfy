/** When parse_string stays inside the buffer it allocates.  Its first loop measures the literal,
    its second reads it, and the two do not step over the same bytes. */
module JsonCapacity {
  import opened JsonText

  /** The bytes the second loop writes before the terminator fit what the first loop measured. */
  predicate Fits(t: string) {
    ReadChars(t).Ok? ==> |ReadChars(t).value| <= ScanLength(t)
  }

  // ---------------------------------------------------------------- the first loop, byte by byte

  /** No quote of t ends the first loop, except perhaps at the last byte; `esc` says that a
      backslash stands before t. */
  predicate UpTo(t: string, esc: bool) {
    if t == [] then true
    else if esc then UpTo(t[1..], false)
    else if t[0] == '\"' then |t| == 1
    else UpTo(t[1..], t[0] == '\\')
  }

  /** The first loop ends at the last byte of t. */
  predicate Closes(t: string, esc: bool) {
    if t == [] then false
    else if esc then Closes(t[1..], false)
    else if t[0] == '\"' then |t| == 1
    else Closes(t[1..], t[0] == '\\')
  }

  /** What the first loop counts in t. */
  function Count(t: string, esc: bool): nat {
    if t == [] then 0
    else if esc then 1 + Count(t[1..], false)
    else if t[0] == '\"' then 0
    else if t[0] == '\\' then Count(t[1..], true)
    else 1 + Count(t[1..], false)
  }

  lemma {:induction false} ClosesEnds(t: string, esc: bool)
    requires Closes(t, esc)
    ensures UpTo(t, esc) && t[|t| - 1] == '\"'
  {
    if esc {
      ClosesEnds(t[1..], false);
    } else if t[0] != '\"' {
      ClosesEnds(t[1..], t[0] == '\\');
    }
  }

  lemma {:induction false} ScanIsCount(t: string, rest: string)
    requires Closes(t, false)
    ensures ScanLength(t + rest) == Count(t, false)
    decreases |t|
  {
    var u := t + rest;
    if t[0] == '\\' {
      assert Closes(t[1..], true) && t[1..][1..] == t[2..] && u[2..] == t[2..] + rest;
      ScanIsCount(t[2..], rest);
    } else if t[0] != '\"' {
      assert u[1..] == t[1..] + rest;
      ScanIsCount(t[1..], rest);
    }
  }

  lemma {:induction false} ScanIsCountOpen(t: string)
    requires UpTo(t, false) && ScanLength(t) >= 0
    ensures ScanLength(t) == Count(t, false)
    decreases |t|
  {
    if t != [] && t[0] == '\\' {
      assert UpTo(t[1..], true) && t[1..][1..] == t[2..];
      ScanIsCountOpen(t[2..]);
    } else if t != [] && t[0] != '\"' {
      ScanIsCountOpen(t[1..]);
    }
  }

  /** Bytes stepped over are counted or not, never the other way round. */
  lemma {:induction false} StepOver(t: string, esc: bool, n: nat) returns (e: bool)
    requires UpTo(t, esc) && n <= |t|
    ensures UpTo(t[n..], e) && Count(t[n..], e) <= Count(t, esc)
  {
    if n == 0 {
      assert t[0..] == t;
      e := esc;
    } else {
      var e1 := !esc && t[0] == '\\';
      assert t[1..][n - 1..] == t[n..];
      e := StepOver(t[1..], e1, n - 1);
    }
  }

  // ---------------------------------------------------------------- the second loop

  lemma {:induction false} FourDigits(t: string, k: nat)
    requires UpTo(t, false) && k <= |t| && forall i | 0 <= i < k :: HexDigit(t[i]) >= 0
    ensures UpTo(t[k..], false) && Count(t, false) == k + Count(t[k..], false)
  {
    if k == 0 {
      assert t[0..] == t;
    } else {
      FourDigits(t[1..], k - 1);
      assert t[1..][k - 1..] == t[k..];
    }
  }

  lemma EscapeU(t: string, esc: bool)
    requires UpTo(t, esc) && |t| >= 2 && t[0] == '\\' && t[1] == 'u'
    ensures UpTo(t[2..], false) && Count(t, esc) >= 1 + Count(t[2..], false)
  {
    assert t[1..][1..] == t[2..];
  }

  lemma UnicodeBytes(t: string)
    ensures var (bytes, n) := Unicode(t);
            && |bytes| <= 4 && (n == 4 || n == 10)
            && (bytes != [] ==> |t| >= 4 && forall i | 0 <= i < 4 :: HexDigit(t[i]) >= 0)
  {
  }

  /** \u and what it takes: the first loop counts at least as many bytes as the second writes. */
  lemma UnicodeCounts(t: string, esc: bool) returns (e: bool)
    requires UpTo(t, esc) && |t| >= 2 && t[0] == '\\' && t[1] == 'u' && |t| >= 2 + Unicode(t[2..]).1
    ensures var (bytes, n) := Unicode(t[2..]);
            UpTo(t[2 + n..], e) && |bytes| + Count(t[2 + n..], e) <= Count(t, esc)
  {
    hide Unicode, Count, UpTo, HexDigit;
    var (bytes, n) := Unicode(t[2..]);
    EscapeU(t, esc);
    UnicodeBytes(t[2..]);
    if bytes == [] {
      e := StepOver(t[2..], false, n);
      assert t[2..][n..] == t[2 + n..];
    } else {
      FourDigits(t[2..], 4);
      assert t[2..][4..] == t[6..] && t[6..][n - 4..] == t[2 + n..];
      e := StepOver(t[6..], false, n - 4);
    }
  }

  /** Any other escape. */
  lemma PairCounts(t: string, esc: bool) returns (e: bool)
    requires UpTo(t, esc) && |t| >= 2 && t[0] == '\\'
    ensures UpTo(t[2..], e) && 1 + Count(t[2..], e) <= Count(t, esc)
  {
    assert t[1..][1..] == t[2..];
    e := esc && t[1] == '\\';
  }

  /** As long as the second loop does not run past the byte that ended the first, all it writes fits. */
  lemma {:induction false} ReadWithin(t: string, esc: bool)
    requires UpTo(t, esc) && ReadChars(t).Ok?
    ensures |ReadChars(t).value| <= Count(t, esc)
    decreases |t|
  {
    hide Unicode, Unescape;
    if t == [] || t[0] == '\"' {
    } else if t[0] != '\\' {
      ReadWithin(t[1..], false);
    } else if t[1] == 'u' {
      var e := UnicodeCounts(t, esc);
      ReadWithin(t[2 + Unicode(t[2..]).1..], e);
    } else {
      var e := PairCounts(t, esc);
      ReadWithin(t[2..], e);
    }
  }

  /** The second loop stops at a quote of t; false when an escape takes it past the last byte. */
  predicate StopsIn(t: string)
    decreases |t|
  {
    if t == [] then false
    else if t[0] == '\"' then true
    else if t[0] != '\\' then StopsIn(t[1..])
    else if |t| == 1 then false
    else
      var n := if t[1] == 'u' then Unicode(t[2..]).1 else 0;
      |t| >= 2 + n && StopsIn(t[2 + n..])
  }

  lemma HexSame(t: string, rest: string)
    requires t != [] && t[|t| - 1] == '\"'
    ensures Hex4(t + rest) == Hex4(t)
  {
    if |t| < 4 {
      assert (t + rest)[|t| - 1] == '\"' && HexDigit('\"') == -1;
    }
  }

  /** What \u takes does not depend on what follows a quote. */
  lemma UnicodeSame(t: string, rest: string)
    requires t != [] && t[|t| - 1] == '\"'
    ensures Unicode(t + rest) == Unicode(t)
  {
    hide Utf8;
    HexSame(t, rest);
    if |t| > 6 {
      assert (t + rest)[6..] == t[6..] + rest;
      HexSame(t[6..], rest);
    }
  }

  lemma {:induction false} SameRead(t: string, rest: string)
    requires t != [] && t[|t| - 1] == '\"' && StopsIn(t)
    ensures ReadChars(t).Ok? && ReadChars(t + rest).Ok? && ReadChars(t + rest).value == ReadChars(t).value
    decreases |t|
  {
    hide Unicode, Unescape;
    var u := t + rest;
    if t[0] == '\"' {
    } else if t[0] != '\\' {
      assert u[1..] == t[1..] + rest;
      SameRead(t[1..], rest);
    } else {
      var n := if t[1] == 'u' then Unicode(t[2..]).1 else 0;
      assert u[2..] == t[2..] + rest && u[2 + n..] == t[2 + n..] + rest && u[1] == t[1];
      UnicodeSame(t[2..], rest);
      SameRead(t[2 + n..], rest);
    }
  }

  // ---------------------------------------------------------------- running past the quote

  function As(n: nat): string {
    if n == 0 then "\"" else "A" + As(n - 1)
  }

  lemma {:induction false} ReadAs(n: nat, skip: nat)
    requires skip <= n
    ensures |As(n)| == n + 1 && ReadChars(As(n)[skip..]).Ok? && |ReadChars(As(n)[skip..]).value| == n - skip
  {
    if skip > 0 {
      ReadAs(n - 1, skip - 1);
      assert As(n)[skip..] == As(n - 1)[skip - 1..];
    } else if n > 0 {
      ReadAs(n - 1, 0);
      assert As(n)[0..] == As(n) && As(n - 1)[0..] == As(n - 1) && As(n)[1..] == As(n - 1);
    } else {
      assert As(0)[0..] == "\"";
    }
  }

  lemma {:induction false} RunsOn(t: string, m: nat)
    requires t != [] && t[|t| - 1] == '\"' && !StopsIn(t) && m >= 10
    ensures ReadChars(t + As(m)).Ok? && |ReadChars(t + As(m)).value| >= m - 10
    decreases |t|
  {
    hide Unicode, Unescape, As, ReadChars, StopsIn;
    if t[0] != '\\' {
      PlainRead(t, As(m));
      RunsOn(t[1..], m);
    } else {
      var n := EscapeRead(t, As(m));
      if |t| > 2 + n {
        DropInside(t, As(m), 2 + n);
        RunsOn(t[2 + n..], m);
      } else {
        ReadAs(m, 0);
        ReadAs(m, 2 + n - |t|);
        DropPast(t, As(m), 2 + n);
      }
    }
  }

  lemma DropInside(t: string, rest: string, k: nat)
    requires k <= |t|
    ensures (t + rest)[k..] == t[k..] + rest
  {
  }

  lemma DropPast(t: string, rest: string, k: nat)
    requires |t| <= k <= |t| + |rest|
    ensures (t + rest)[k..] == rest[k - |t|..]
  {
  }

  lemma PlainRead(t: string, rest: string)
    requires t != [] && t[|t| - 1] == '\"' && t[0] != '\\' && !StopsIn(t)
    ensures |t| > 1 && !StopsIn(t[1..])
    ensures ReadChars(t[1..] + rest).Ok? ==>
              ReadChars(t + rest).Ok? && |ReadChars(t + rest).value| >= |ReadChars(t[1..] + rest).value|
  {
    DropInside(t, rest, 1);
  }

  /** An escape before a quote takes 2 + n bytes, whatever follows the quote. */
  lemma EscapeRead(t: string, rest: string) returns (n: nat)
    requires |t| > 1 && t[|t| - 1] == '\"' && t[0] == '\\'
    ensures n <= 10 && (|t| == 2 ==> n == 0)
    ensures StopsIn(t) <==> |t| >= 2 + n && StopsIn(t[2 + n..])
    ensures |t| + |rest| >= 2 + n && ReadChars((t + rest)[2 + n..]).Ok? ==>
              && ReadChars(t + rest).Ok?
              && |ReadChars(t + rest).value| >= |ReadChars((t + rest)[2 + n..]).value|
  {
    hide Unicode, Unescape;
    n := if t[1] == 'u' then Unicode(t[2..]).1 else 0;
    DropInside(t, rest, 2);
    if t[1] == 'u' {
      UnicodeSame(t[2..], rest);
      UnicodeBytes(t[2..]);
    }
  }

  // ---------------------------------------------------------------- the result

  /** For a literal b up to the quote that ends the first loop: parse_string stays inside its buffer
      whatever follows exactly if the second loop stops inside b too. */
  lemma LiteralFits(b: string)
    requires Closes(b, false)
    ensures (forall rest: string :: Fits(b + rest)) <==> StopsIn(b)
  {
    hide ReadChars, ScanLength;
    ClosesEnds(b, false);
    if StopsIn(b) {
      forall rest: string ensures Fits(b + rest) {
        SameRead(b, rest);
        ReadWithin(b, false);
        ScanIsCount(b, rest);
      }
    } else {
      var m := Count(b, false) + 11;
      RunsOn(b, m);
      ScanIsCount(b, As(m));
      assert !Fits(b + As(m));
    }
  }

  /** A literal that the text ends before it is closed always fits. */
  lemma OpenLiteralFits(t: string)
    requires UpTo(t, false) && ScanLength(t) >= 0
    ensures Fits(t)
  {
    if ReadChars(t).Ok? {
      ReadWithin(t, false);
      ScanIsCountOpen(t);
    }
  }

  /** Two bytes written behind a measured length of one: \u takes the closing quote with it. */
  lemma QuoteSteppedOver()
    ensures Closes("\\u\"", false) && !StopsIn("\\u\"")
    ensures ScanLength("\\u\"AAABB\"") == 1 && ReadChars("\\u\"AAABB\"") == Ok("BB", "")
  {
    hide ReadChars, Unicode;
    assert "\\u\""[1..] == "u\"" && "\\u\""[1..][1..] == "\"" && "\\u\""[2..] == "\"";
    assert "\\u\"AAABB\""[2..] == "\"AAABB\"";
    NoDigits("\"");
    ReadBehindQuote();
  }

  lemma NoDigits(t: string)
    requires At(t, '\"')
    ensures Unicode(t) == ([], 4)
  {
  }

  lemma ReadBehindQuote()
    ensures ReadChars("\\u\"AAABB\"") == Ok("BB", "")
  {
    hide Unicode;
    var t := "\\u\"AAABB\"";
    NoDigits(t[2..]);
    assert t[6..] == "BB\"" && "BB\""[1..] == "B\"" && "B\""[1..] == "\"";
    assert ReadChars("\"") == Ok("", "");
    assert "B" + "" == "B" && ReadChars("B\"") == Ok("B", "");
    assert "B" + "B" == "BB" && ReadChars("BB\"") == Ok("BB", "");
    assert "" + "BB" == "BB";
  }
}
