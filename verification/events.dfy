/** The `Event` record of internal/monitoring/event.go and its two value-receiver
    methods: `GetSum`, the fingerprint the watcher deduplicates on, and
    `BuildMessage`, the chat message rendered for an event.

    Strings are sequences of Unicode scalar values.  Go strings are UTF-8 bytes;
    every text operation modelled here (concatenation, search and replacement of a
    well-formed pattern) gives the same answer on the bytes as on the characters,
    so the model works on characters.  The MD5 digest of the UTF-8 bytes of a
    string is an uninterpreted function of the string (`Md5`), passed in. */
module Events {

  newtype byte = x: int | 0 <= x < 256

  /** An MD5 digest: exactly 16 bytes. */
  type Digest = s: seq<byte> | |s| == 16 witness [0, 0, 0, 0, 0, 0, 0, 0, 0, 0, 0, 0, 0, 0, 0, 0]

  /** `md5.Sum` over the UTF-8 bytes of a string, left uninterpreted. */
  type Md5 = string -> Digest

  datatype Event = Event(
    date: string,
    time: string,
    book: string,
    price: string,
    description: string,
    remaining: string)

  // ---------------------------------------------------------------------------
  // Fingerprint
  // ---------------------------------------------------------------------------

  /** The text `GetSum` digests: five fields glued together with no separator.
      `remaining` is not part of it. */
  function Identity(e: Event): string {
    e.date + e.time + e.book + e.description + e.price
  }

  /** The lower-case hex digit for a value below 16. */
  function HexDigit(d: nat): (c: char)
    requires d < 16
    ensures HexValue(c) == d
  {
    if d < 10 then ('0' as int + d) as char else ('a' as int + d - 10) as char
  }

  predicate IsHexDigit(c: char) {
    '0' <= c <= '9' || 'a' <= c <= 'f'
  }

  predicate IsHexText(s: string) {
    forall i :: 0 <= i < |s| ==> IsHexDigit(s[i])
  }

  /** `%x` applied to a byte array: two lower-case hex digits per byte, high nibble first. */
  function Hex(bs: seq<byte>): (r: string)
    ensures |r| == 2 * |bs|
    ensures IsHexText(r)
  {
    if bs == [] then ""
    else [HexDigit(bs[0] as int / 16), HexDigit(bs[0] as int % 16)] + Hex(bs[1..])
  }

  /** The value of a lower-case hex digit. */
  function HexValue(c: char): nat {
    if '0' <= c <= '9' then c as int - '0' as int
    else if 'a' <= c <= 'f' then c as int - 'a' as int + 10
    else 0
  }

  /** Reads lower-case hex text back into bytes; the inverse of `Hex`. */
  function UnHex(s: string): (bs: seq<byte>)
    requires |s| % 2 == 0 && IsHexText(s)
    ensures |bs| == |s| / 2
  {
    if s == [] then []
    else [(HexValue(s[0]) * 16 + HexValue(s[1])) as byte] + UnHex(s[2..])
  }

  lemma {:induction false} UnHexHex(bs: seq<byte>)
    ensures UnHex(Hex(bs)) == bs
  {
    if bs != [] {
      var h := Hex(bs);
      var b := bs[0] as int;
      assert h[0] == HexDigit(b / 16) && h[1] == HexDigit(b % 16);
      assert h[2..] == Hex(bs[1..]);
      UnHexHex(bs[1..]);
    }
  }

  /** Two byte strings render to the same hex text exactly when they are equal. */
  lemma HexInjective(a: seq<byte>, b: seq<byte>)
    ensures Hex(a) == Hex(b) <==> a == b
  {
    if Hex(a) == Hex(b) {
      UnHexHex(a);
      UnHexHex(b);
    }
  }

  /** `Event.GetSum`: the MD5 digest of `Identity(e)`, rendered with `%x`. */
  function GetSum(e: Event, md5: Md5): (r: string)
    ensures |r| == 32 && IsHexText(r)
  {
    Hex(md5(Identity(e)))
  }

  /** Two events have the same fingerprint exactly when their identity texts have
      the same digest: the hex rendering neither adds nor loses anything. */
  lemma SumAgreesWithDigest(a: Event, b: Event, md5: Md5)
    ensures GetSum(a, md5) == GetSum(b, md5) <==> md5(Identity(a)) == md5(Identity(b))
  {
    HexInjective(md5(Identity(a)), md5(Identity(b)));
  }

  /** The fingerprint can be read back into the digest it renders. */
  lemma SumDecodes(e: Event, md5: Md5)
    ensures UnHex(GetSum(e, md5)) == md5(Identity(e))
  {
    UnHexHex(md5(Identity(e)));
  }

  /** `remaining` never contributes to the fingerprint. */
  lemma SumIgnoresRemaining(e: Event, remaining: string, md5: Md5)
    ensures GetSum(e.(remaining := remaining), md5) == GetSum(e, md5)
  {
  }

  /** With no separator between the fields, moving text across a field boundary
      leaves the fingerprint unchanged: "1" + "2" and "12" + "" collide. */
  lemma SumIgnoresFieldBoundaries(md5: Md5)
    ensures var a := Event("1", "2", "b", "", "", "");
            var b := Event("12", "", "b", "", "", "");
            a != b && GetSum(a, md5) == GetSum(b, md5)
  {
    var a := Event("1", "2", "b", "", "", "");
    var b := Event("12", "", "b", "", "", "");
    assert Identity(a) == Identity(b) == "12b";
  }

  // ---------------------------------------------------------------------------
  // strings.Replacer with a single pair
  // ---------------------------------------------------------------------------

  /** `pat` occurs in `s` starting at index `i`. */
  predicate OccursAt(s: string, pat: string, i: nat) {
    i + |pat| <= |s| && s[i..i + |pat|] == pat
  }

  /** `strings.NewReplacer(pat, rep).Replace(s)` for one pair with a non-empty
      pattern: scan left to right, replace each leftmost occurrence, resume after it. */
  function ReplaceAll(s: string, pat: string, rep: string): string
    requires pat != []
    decreases |s|
  {
    if |s| < |pat| then s
    else if s[..|pat|] == pat then rep + ReplaceAll(s[|pat|..], pat, rep)
    else [s[0]] + ReplaceAll(s[1..], pat, rep)
  }

  /** Text before the first occurrence of the pattern is copied unchanged. */
  lemma {:induction false} ReplaceSkips(s: string, pat: string, rep: string, k: nat)
    requires pat != [] && k <= |s|
    requires forall i :: 0 <= i < k ==> !OccursAt(s, pat, i)
    ensures ReplaceAll(s, pat, rep) == s[..k] + ReplaceAll(s[k..], pat, rep)
  {
    if k > 0 {
      assert !OccursAt(s, pat, 0);
      if |s| < |pat| {
        assert ReplaceAll(s[k..], pat, rep) == s[k..];
        assert s[..k] + s[k..] == s;
      } else {
        assert s[..|pat|] != pat;
        var t := s[1..];
        forall i | 0 <= i < k - 1
          ensures !OccursAt(t, pat, i)
        {
          assert !OccursAt(s, pat, i + 1);
          if i + |pat| <= |t| {
            assert t[i..i + |pat|] == s[i + 1..i + 1 + |pat|];
          }
        }
        ReplaceSkips(t, pat, rep, k - 1);
        assert t[k - 1..] == s[k..];
        assert [s[0]] + t[..k - 1] == s[..k];
      }
    }
  }

  /** Each leftmost occurrence of the pattern is replaced by `rep`, the text before
      it is kept, and scanning resumes right after the occurrence. */
  lemma ReplaceFirst(s: string, pat: string, rep: string, k: nat)
    requires pat != [] && OccursAt(s, pat, k)
    requires forall i :: 0 <= i < k ==> !OccursAt(s, pat, i)
    ensures ReplaceAll(s, pat, rep) == s[..k] + rep + ReplaceAll(s[k + |pat|..], pat, rep)
  {
    ReplaceSkips(s, pat, rep, k);
    var t := s[k..];
    assert OccursAt(t, pat, 0) by {
      assert t[0..|pat|] == s[k..k + |pat|];
    }
    ReplaceAtStart(t, pat, rep);
    assert t[|pat|..] == s[k + |pat|..];
  }

  lemma ReplaceAtStart(t: string, pat: string, rep: string)
    requires pat != [] && OccursAt(t, pat, 0)
    ensures ReplaceAll(t, pat, rep) == rep + ReplaceAll(t[|pat|..], pat, rep)
  {
  }

  /** A text without the pattern passes through unchanged. */
  lemma ReplaceAbsent(s: string, pat: string, rep: string)
    requires pat != []
    requires forall i :: 0 <= i <= |s| ==> !OccursAt(s, pat, i)
    ensures ReplaceAll(s, pat, rep) == s
  {
    ReplaceSkips(s, pat, rep, |s|);
    assert s[..|s|] == s;
  }

  // ---------------------------------------------------------------------------
  // addEmojiBeforeTextReplacer
  // ---------------------------------------------------------------------------

  /** "Сбор" (gathering), the word the replacer looks for. */
  const Gathering: string := "\U{0421}\U{0431}\U{043E}\U{0440}"

  /** Newline, stopwatch emoji (U+23F1 with variation selector U+FE0F) and a space. */
  const StopwatchPrefix: string := "\n\U{23F1}\U{FE0F} "

  /** The replacer's replacement text: the prefix followed by the same word. */
  const GatheringWithStopwatch: string := StopwatchPrefix + Gathering

  /** `addEmojiBeforeTextReplacer.Replace(s)`. */
  function AddEmojiBeforeText(s: string): string {
    ReplaceAll(s, Gathering, GatheringWithStopwatch)
  }

  /** `addEmojiBeforeTextReplacer` run the other way round: strips the stopwatch
      prefix off every marked word. */
  function RemoveEmojiBeforeText(s: string): string {
    ReplaceAll(s, GatheringWithStopwatch, Gathering)
  }

  /** A replacer output starts with a newline-free text `w` only if the input
      starts with `w` too: every replacement begins with a newline. */
  lemma {:induction false} PrefixReflects(u: string, w: string)
    requires '\n' !in w && |w| <= |AddEmojiBeforeText(u)|
    requires AddEmojiBeforeText(u)[..|w|] == w
    ensures |w| <= |u| && u[..|w|] == w
    decreases |u|
  {
    var out := AddEmojiBeforeText(u);
    assert |u| >= |Gathering| && u[..|Gathering|] == Gathering ==> out[0] == '\n';
    if w == [] {
    } else if |u| < |Gathering| {
      assert out == u;
    } else if u[..|Gathering|] == Gathering {
    } else {
      var rest := AddEmojiBeforeText(u[1..]);
      assert out == [u[0]] + rest;
      assert out[1..|w|] == w[1..];
      assert rest[..|w| - 1] == w[1..];
      PrefixReflects(u[1..], w[1..]);
      assert u[..|w|] == [u[0]] + u[1..][..|w| - 1];
    }
  }

  /** A replacer output never starts with the bare word. */
  lemma OutputNotStartingWithWord(u: string)
    ensures !OccursAt(AddEmojiBeforeText(u), Gathering, 0)
  {
    var out := AddEmojiBeforeText(u);
    if |u| >= |Gathering| && u[..|Gathering|] != Gathering && OccursAt(out, Gathering, 0) {
      var rest := AddEmojiBeforeText(u[1..]);
      assert out == [u[0]] + rest;
      var w := Gathering[1..];
      assert rest[..|w|] == out[1..|Gathering|];
      PrefixReflects(u[1..], w);
    }
  }

  /** An occurrence past a front part is an occurrence in the rest. */
  lemma OccursInRest(front: string, rest: string, pat: string, i: nat)
    requires i >= |front| && OccursAt(front + rest, pat, i)
    ensures OccursAt(rest, pat, i - |front|)
  {
    assert (front + rest)[i..i + |pat|] == rest[i - |front|..i - |front| + |pat|];
  }

  /** An occurrence in the rest is one in the whole text, shifted by the front part. */
  lemma OccursInWhole(front: string, rest: string, pat: string, j: nat)
    requires OccursAt(rest, pat, j)
    ensures OccursAt(front + rest, pat, j + |front|)
  {
    assert (front + rest)[j + |front|..j + |front| + |pat|] == rest[j..j + |pat|];
  }

  /** Inside a replacement, the word occurs only where the replacer put it. */
  lemma WordInsideReplacement(rest: string, i: nat)
    requires i < |GatheringWithStopwatch| && OccursAt(GatheringWithStopwatch + rest, Gathering, i)
    ensures i == |StopwatchPrefix| && OccursAt(GatheringWithStopwatch + rest, GatheringWithStopwatch, 0)
  {
    var out := GatheringWithStopwatch + rest;
    assert out[i] == out[i..i + |Gathering|][0] == Gathering[0];
    assert out[i] == GatheringWithStopwatch[i];
    assert out[..|GatheringWithStopwatch|] == GatheringWithStopwatch;
  }

  /** Every occurrence of the word in `out` is immediately preceded by the
      stopwatch prefix. */
  ghost predicate CarriesPrefix(out: string) {
    forall i: nat :: OccursAt(out, Gathering, i) ==>
      i >= |StopwatchPrefix| && OccursAt(out, GatheringWithStopwatch, i - |StopwatchPrefix|)
  }

  /** A replacement followed by a text that carries the prefix carries it too. */
  lemma CarriesAfterReplacement(rest: string)
    requires CarriesPrefix(rest)
    ensures CarriesPrefix(GatheringWithStopwatch + rest)
  {
    var front, p := GatheringWithStopwatch, |StopwatchPrefix|;
    var out := front + rest;
    forall i: nat | OccursAt(out, Gathering, i)
      ensures i >= p && OccursAt(out, GatheringWithStopwatch, i - p)
    {
      if i < |front| {
        WordInsideReplacement(rest, i);
      } else {
        OccursInRest(front, rest, Gathering, i);
        OccursInWhole(front, rest, GatheringWithStopwatch, i - |front| - p);
      }
    }
  }

  /** A character in front of a text that carries the prefix keeps it so, unless
      the word now starts at the very beginning. */
  lemma CarriesAfterChar(c: char, rest: string)
    requires CarriesPrefix(rest) && !OccursAt([c] + rest, Gathering, 0)
    ensures CarriesPrefix([c] + rest)
  {
    var front, p := [c], |StopwatchPrefix|;
    var out := front + rest;
    forall i: nat | OccursAt(out, Gathering, i)
      ensures i >= p && OccursAt(out, GatheringWithStopwatch, i - p)
    {
      OccursInRest(front, rest, Gathering, i);
      OccursInWhole(front, rest, GatheringWithStopwatch, i - 1 - p);
    }
  }

  /** Every occurrence of the word in a replacer output carries the stopwatch
      prefix right in front of it: the word cannot overlap itself, so no bare
      word is left and none is formed across a replacement. */
  lemma {:induction false} OccurrencesCarryPrefix(u: string)
    ensures CarriesPrefix(AddEmojiBeforeText(u))
    decreases |u|
  {
    var out := AddEmojiBeforeText(u);
    var n := |Gathering|;
    if |u| < n {
      assert out == u;
    } else if u[..n] == Gathering {
      var rest := AddEmojiBeforeText(u[n..]);
      assert out == GatheringWithStopwatch + rest;
      OccurrencesCarryPrefix(u[n..]);
      CarriesAfterReplacement(rest);
    } else {
      var rest := AddEmojiBeforeText(u[1..]);
      assert out == [u[0]] + rest;
      OutputNotStartingWithWord(u);
      OccurrencesCarryPrefix(u[1..]);
      CarriesAfterChar(u[0], rest);
    }
  }

  /** A replacer output never starts with the replacement text minus its newline. */
  lemma OutputNotStartingWithTail(u: string)
    ensures !OccursAt(AddEmojiBeforeText(u), GatheringWithStopwatch[1..], 0)
  {
    var out := AddEmojiBeforeText(u);
    var tail := GatheringWithStopwatch[1..];
    var q := StopwatchPrefix[1..];
    assert tail == q + Gathering;
    assert OccursAt(out, tail, 0) ==> out[..|q|] == tail[..|q|] == q;
    if |q| <= |out| && out[..|q|] == q {
      PrefixReflects(u, q);
      forall i | 0 <= i < |q|
        ensures !OccursAt(u, Gathering, i)
      {
        assert u[i] == q[i] != Gathering[0];
        if i + |Gathering| <= |u| {
          assert u[i..i + |Gathering|][0] == u[i];
        }
      }
      ReplaceSkips(u, Gathering, GatheringWithStopwatch, |q|);
      assert out == q + AddEmojiBeforeText(u[|q|..]);
      OutputNotStartingWithWord(u[|q|..]);
      OccursAfterPrefix(out, q, Gathering);
    }
  }

  /** An occurrence of `q + w` at the start holds an occurrence of `w` after `q`. */
  lemma OccursAfterPrefix(s: string, q: string, w: string)
    requires |q| <= |s|
    ensures OccursAt(s, q + w, 0) ==> OccursAt(s[|q|..], w, 0)
  {
    if OccursAt(s, q + w, 0) {
      assert s[|q|..][..|w|] == (q + w)[|q|..];
    }
  }

  /** Taking the stopwatch prefix back off restores the description exactly: the
      replacer loses no text and adds only the prefix before each word. */
  lemma {:induction false} RemoveAfterAdd(s: string)
    ensures RemoveEmojiBeforeText(AddEmojiBeforeText(s)) == s
    decreases |s|
  {
    var out := AddEmojiBeforeText(s);
    var n := |GatheringWithStopwatch|;
    if |s| < |Gathering| {
      assert out == s;
    } else if s[..|Gathering|] == Gathering {
      var rest := AddEmojiBeforeText(s[|Gathering|..]);
      assert out == GatheringWithStopwatch + rest;
      assert out[..n] == GatheringWithStopwatch;
      assert out[n..] == rest;
      RemoveAfterAdd(s[|Gathering|..]);
      assert s == Gathering + s[|Gathering|..];
    } else {
      var rest := AddEmojiBeforeText(s[1..]);
      assert out == [s[0]] + rest;
      OutputNotStartingWithTail(s[1..]);
      assert !(|out| >= n && out[..n] == GatheringWithStopwatch) by {
        assert |out| >= n ==> out[1..n] == rest[..n - 1];
      }
      assert out[1..] == rest;
      RemoveAfterAdd(s[1..]);
      assert s == [s[0]] + s[1..];
    }
  }

  // ---------------------------------------------------------------------------
  // strconv.FormatInt(n, 32)
  // ---------------------------------------------------------------------------

  /** The base-32 digit for a value below 32: 0-9, then a-v. */
  function Digit32(d: nat): (c: char)
    requires d < 32
    ensures IsDigit32(c) && DigitValue(c) == d
  {
    if d < 10 then ('0' as int + d) as char else ('a' as int + d - 10) as char
  }

  predicate IsDigit32(c: char) {
    '0' <= c <= '9' || 'a' <= c <= 'v'
  }

  function DigitValue(c: char): nat {
    if '0' <= c <= '9' then c as int - '0' as int
    else if 'a' <= c <= 'v' then c as int - 'a' as int + 10
    else 0
  }

  /** `strconv.FormatUint(n, 32)`: most significant digit first, no leading zeros. */
  function FormatNat32(n: nat): (r: string)
    ensures r != [] && (|r| > 1 ==> r[0] != '0')
    ensures forall i :: 0 <= i < |r| ==> IsDigit32(r[i])
  {
    if n < 32 then [Digit32(n)] else FormatNat32(n / 32) + [Digit32(n % 32)]
  }

  /** `strconv.FormatInt(n, 32)`: a minus sign in front of the magnitude when negative. */
  function FormatInt32(n: int): string {
    if n < 0 then "-" + FormatNat32(-n) else FormatNat32(n)
  }

  function ParseNat32(s: string): nat
    decreases |s|
  {
    if s == [] then 0 else ParseNat32(s[..|s| - 1]) * 32 + DigitValue(s[|s| - 1])
  }

  /** Reads a `FormatInt32` rendering back into the number. */
  function ParseInt32(s: string): int {
    if s != [] && s[0] == '-' then -(ParseNat32(s[1..]) as int) else ParseNat32(s)
  }

  lemma {:induction false} ParseFormatNat32(n: nat)
    ensures ParseNat32(FormatNat32(n)) == n
    decreases n
  {
    if n >= 32 {
      var r := FormatNat32(n);
      ParseFormatNat32(n / 32);
      assert r[..|r| - 1] == FormatNat32(n / 32);
      assert r[|r| - 1] == Digit32(n % 32);
    }
  }

  /** `FormatInt32` loses nothing: its output reads back to the number. */
  lemma ParseFormatInt32(n: int)
    ensures ParseInt32(FormatInt32(n)) == n
  {
    if n < 0 {
      assert FormatInt32(n)[1..] == FormatNat32(-n);
      ParseFormatNat32(-n);
    } else {
      assert IsDigit32(FormatNat32(n)[0]);
      ParseFormatNat32(n);
    }
  }

  /** The base-32 stamp uses only the digits 0-9a-v, after a minus sign when negative. */
  lemma Base32Alphabet(n: int)
    ensures var r := FormatInt32(n);
            (n < 0 <==> r[0] == '-') &&
            forall i :: (if n < 0 then 1 else 0) <= i < |r| ==> IsDigit32(r[i])
  {
  }

  // ---------------------------------------------------------------------------
  // BuildMessage
  // ---------------------------------------------------------------------------

  /** The booking link of the message: the event's link followed by a
      cache-busting `rand` query parameter holding the Unix time in base 32. */
  function BookingLink(book: string, now: int): (r: string)
    ensures |r| >= |book| + 6 && r[..|book|] == book && r[|book|..|book| + 6] == "?rand="
    ensures ParseInt32(r[|book| + 6..]) == now
  {
    ParseFormatInt32(now);
    var r := book + "?rand=" + FormatInt32(now);
    assert r[|book| + 6..] == FormatInt32(now);
    r
  }

  /** Everything of the Markdown template up to the booking link. */
  function MessageHead(date: string, time: string, description: string, price: string,
                       remaining: string): string
  {
    "\U{1F4C6} *" + date + " " + time + "*\n\n"
    + "\U{1F3A4} *" + description + "*\n"
    + "\U{1F4B7} *" + price + "*\n"
    + "\U{1F39F}\U{FE0F} " + remaining + "\n"
    + "\U{1F3AB} [*\U{041A}\U{0443}\U{043F}\U{0438}\U{0442}\U{044C} \U{0431}\U{0438}\U{043B}\U{0435}\U{0442}\U{044B}*]("
  }

  /** The Markdown template of `BuildMessage`, filled with already prepared texts. */
  function Render(date: string, time: string, description: string, price: string,
                  remaining: string, link: string): string
  {
    MessageHead(date, time, description, price, remaining) + link + ")\n"
  }

  /** `Event.BuildMessage` with the clock reading `now` (Unix seconds) passed in. */
  function BuildMessage(e: Event, now: int): string {
    Render(e.date, e.time, AddEmojiBeforeText(e.description), e.price, e.remaining,
           BookingLink(e.book, now))
  }

  /** A description without the word "Сбор" appears in the message verbatim. */
  lemma PlainDescriptionVerbatim(e: Event, now: int)
    requires forall i :: 0 <= i <= |e.description| ==> !OccursAt(e.description, Gathering, i)
    ensures BuildMessage(e, now) ==
      Render(e.date, e.time, e.description, e.price, e.remaining, BookingLink(e.book, now))
  {
    ReplaceAbsent(e.description, Gathering, GatheringWithStopwatch);
  }

  /** The text of `m` from index `i` up to its closing two characters is the
      base-32 stamp of `now`. */
  predicate StampReadsBack(m: string, i: nat, now: int) {
    i <= |m| - 2 && ParseInt32(m[i..|m| - 2]) == now
  }

  /** The message ends with the booking link followed by ")\n". */
  lemma MessageEndsWithLink(e: Event, now: int)
    ensures var m := BuildMessage(e, now);
            var h := |MessageHead(e.date, e.time, AddEmojiBeforeText(e.description), e.price, e.remaining)|;
            h <= |m| && m[h..] == BookingLink(e.book, now) + ")\n"
  {
    var head := MessageHead(e.date, e.time, AddEmojiBeforeText(e.description), e.price, e.remaining);
    var tail := BookingLink(e.book, now) + ")\n";
    assert BuildMessage(e, now) == head + tail;
  }

  /** In any text ending with a booking link and ")\n", the stamp can be cut back
      out between "?rand=" and the closing ")\n". */
  lemma StampAfterLink(m: string, h: nat, book: string, now: int)
    requires h <= |m| && m[h..] == BookingLink(book, now) + ")\n"
    ensures StampReadsBack(m, h + |book| + 6, now)
  {
    var link := BookingLink(book, now);
    assert m[h + |book| + 6..|m| - 2] == link[|book| + 6..];
  }

  /** Two booking links closed by ")\n" are equal only for the same time. */
  lemma ClosedLinkInjective(book: string, t1: int, t2: int)
    ensures BookingLink(book, t1) + ")\n" == BookingLink(book, t2) + ")\n" ==> t1 == t2
  {
    var l1, l2 := BookingLink(book, t1), BookingLink(book, t2);
    assert (l1 + ")\n")[..|l1|] == l1;
    assert (l2 + ")\n")[..|l2|] == l2;
  }

  /** Messages for one event built at different seconds differ. */
  lemma MessagesAtDifferentTimesDiffer(e: Event, t1: int, t2: int)
    requires t1 != t2
    ensures BuildMessage(e, t1) != BuildMessage(e, t2)
  {
    MessageEndsWithLink(e, t1);
    MessageEndsWithLink(e, t2);
    ClosedLinkInjective(e.book, t1, t2);
  }
}
