/**
 * The rule-based business-card field extraction of extract.py: one
 * extractor per field family, and the arbiter that folds their candidates
 * into the eight-field record.
 *
 * The OCR text is a `string`. What the foreign collaborators compute is
 * passed in: the spaCy entities as `seq<Entity>` in document order, the
 * GeoText cities and countries as two sequences, and the strings that
 * `re.findall` returns for the phone and the address patterns (whose
 * backtracking semantics are not modelled).
 */
module Extract {
  import opened Seqs
  import opened Regex

  // ----- Email (extract.py:12-18) --------------------------------------------

  /** `[a-zA-Z0-9_.+-]` */
  const EmailLocal := Ranges([('a', 'z'), ('A', 'Z'), ('0', '9'), ('_', '_'), ('.', '.'), ('+', '+'), ('-', '-')])
  /** `[a-zA-Z0-9-]` */
  const EmailDomain := Ranges([('a', 'z'), ('A', 'Z'), ('0', '9'), ('-', '-')])
  /** `[a-zA-Z0-9-.]` */
  const EmailTail := Ranges([('a', 'z'), ('A', 'Z'), ('0', '9'), ('-', '-'), ('.', '.')])

  /** `[a-zA-Z0-9_.+-]+@[a-zA-Z0-9-]+\.[a-zA-Z0-9-.]+` */
  const EmailPattern: FindPattern := Pattern([[Run(EmailLocal), Char('@'), Run(EmailDomain), Char('.'), Run(EmailTail)]], false)

  /**
   * A non-empty local part, then `@`, a non-empty domain label, a `.` and a
   * non-empty tail, each made of the characters its class allows.
   */
  ghost predicate IsEmailShaped(w: string)
  {
    exists at: nat, dot: nat :: IsEmailShapedAt(w, at, dot)
  }

  /** `w` is email-shaped with its `@` at index `at` and the dot after the domain label at `dot`. */
  ghost predicate IsEmailShapedAt(w: string, at: nat, dot: nat)
  {
    && 0 < at && at + 1 < dot < |w| - 1
    && w[at] == '@' && w[dot] == '.'
    && (forall k | 0 <= k < at :: InClass(EmailLocal, w[k]))
    && (forall k | at < k < dot :: InClass(EmailDomain, w[k]))
    && (forall k | dot < k < |w| :: InClass(EmailTail, w[k]))
  }

  lemma AcceptedEmailIsShaped(w: string)
    requires Accepts(EmailPattern, w)
    ensures IsEmailShaped(w)
  {
    var alt := EmailPattern.alts[0];
    assert AltAccepts(alt, w, false);
    assert w[0..] == w;
    var at := SplitFirstAtomAt(alt, w, 0, false);
    var p2 := SplitFirstAtomAt(alt[1..], w, at, false);
    var dot := SplitFirstAtomAt(alt[2..], w, p2, false);
    var p4 := SplitFirstAtomAt(alt[3..], w, dot, false);
    var e := SplitFirstAtomAt(alt[4..], w, p4, false);
    assert e == |w| by {
      assert alt[5..] == [];
    }
    assert alt[0] == Run(EmailLocal) && alt[1..][0] == Char('@') && alt[2..][0] == Run(EmailDomain);
    assert alt[3..][0] == Char('.') && alt[4..][0] == Run(EmailTail);
    RunSpan(EmailLocal, w, 0, at, false);
    RunSpan(EmailDomain, w, p2, dot, false);
    RunSpan(EmailTail, w, p4, e, false);
    assert p2 == at + 1 && w[at] == '@' by {
      assert w[at..p2][0] == w[at];
    }
    assert p4 == dot + 1 && w[dot] == '.' by {
      assert w[dot..p4][0] == w[dot];
    }
    assert IsEmailShapedAt(w, at, dot);
  }

  lemma FoundEmailsAreShaped(text: string)
    ensures forall w | w in FindAll(EmailPattern, text, 0) :: IsEmailShaped(w) && IsSubstring(w, text)
  {
    FindAllSound(EmailPattern, text, 0);
    forall w | w in FindAll(EmailPattern, text, 0) ensures IsEmailShaped(w) {
      AcceptedEmailIsShaped(w);
    }
  }

  /** `extract_email_ner`: the distinct email-shaped strings `re.findall` finds. */
  function ExtractEmails(text: string): (r: seq<string>)
    ensures NoDuplicates(r)
    ensures forall w | w in r :: IsEmailShaped(w) && IsSubstring(w, text)
    ensures forall w | w in FindAll(EmailPattern, text, 0) :: w in r
    ensures forall w | w in r :: w in FindAll(EmailPattern, text, 0)
  {
    FoundEmailsAreShaped(text);
    Dedup(FindAll(EmailPattern, text, 0))
  }

  /** `@` ends a local part, `.` ends a domain label, and no character of the three classes is whitespace. */
  lemma EmailClassesStop()
    ensures !InClass(EmailLocal, '@') && !InClass(EmailDomain, '.')
    ensures forall c | InClass(EmailLocal, c) :: !IsSpace(c)
    ensures forall c | InClass(EmailDomain, c) :: !IsSpace(c)
    ensures forall c | InClass(EmailTail, c) :: !IsSpace(c)
  {
  }

  /** An email-shaped string holds no whitespace. */
  lemma EmailShapedHasNoSpace(w: string)
    requires IsEmailShaped(w)
    ensures forall j | 0 <= j < |w| :: !IsSpace(w[j])
  {
    var at: nat, dot: nat :| IsEmailShapedAt(w, at, dot);
    EmailClassesStop();
  }

  /** Each run of an email-shaped token stops at the separator or the boundary after it. */
  lemma EmailRunsAt(text: string, i: nat, e: nat, at: nat, dot: nat)
    requires i <= e <= |text| && IsEmailShapedAt(text[i..e], at, dot)
    requires e == |text| || !InClass(EmailTail, text[e])
    ensures text[i + at] == '@' && text[i + dot] == '.'
    ensures RunEnd(EmailLocal, text, i) == i + at
    ensures RunEnd(EmailDomain, text, i + at + 1) == i + dot
    ensures RunEnd(EmailTail, text, i + dot + 1) == e
  {
    var w := text[i..e];
    assert forall k | i <= k < e :: text[k] == w[k - i];
    EmailClassesStop();
    RunEndAt(EmailLocal, text, i, i + at);
    RunEndAt(EmailDomain, text, i + at + 1, i + dot);
    RunEndAt(EmailTail, text, i + dot + 1, e);
  }

  /** The email pattern's five atoms, stepped through at the ends of its runs. */
  lemma EmailAltEnd(text: string, i: nat, a: nat, d: nat, e: nat)
    requires i < a && a + 1 < d && d + 1 < e <= |text| && text[a] == '@' && text[d] == '.'
    requires RunEnd(EmailLocal, text, i) == a && RunEnd(EmailDomain, text, a + 1) == d && RunEnd(EmailTail, text, d + 1) == e
    ensures MatchEnd(EmailPattern, text, i) == Some(e)
  {
    var alt := EmailPattern.alts[0];
    assert alt[0] == Run(EmailLocal) && alt[1..][0] == Char('@') && alt[2..][0] == Run(EmailDomain);
    assert alt[3..][0] == Char('.') && alt[4..][0] == Run(EmailTail) && alt[5..] == [];
    assert AltEnd(alt, text, i, false) == AltEnd(alt[1..], text, a, false);
    assert AltEnd(alt[1..], text, a, false) == AltEnd(alt[2..], text, a + 1, false);
    assert AltEnd(alt[2..], text, a + 1, false) == AltEnd(alt[3..], text, d, false);
    assert AltEnd(alt[3..], text, d, false) == AltEnd(alt[4..], text, d + 1, false);
    assert AltEnd(alt[4..], text, d + 1, false) == AltEnd(alt[5..], text, e, false);
    assert AltsEnd([alt], text, i, false) == AltEnd(alt, text, i, false);
  }

  /**
   * At an email-shaped token whose tail is not followed by another tail
   * character, the email pattern matches exactly that token.
   */
  lemma EmailMatchAt(text: string, i: nat, e: nat, at: nat, dot: nat)
    requires i <= e <= |text| && IsEmailShapedAt(text[i..e], at, dot)
    requires e == |text| || !InClass(EmailTail, text[e])
    ensures MatchEnd(EmailPattern, text, i) == Some(e)
  {
    EmailRunsAt(text, i, e, at, dot);
    EmailAltEnd(text, i, i + at, i + dot, e);
  }

  /**
   * An email-shaped token at the start of the text or after whitespace,
   * not followed by another tail character, is returned whole.
   */
  lemma EmailTokenFound(text: string, i: nat, e: nat, at: nat, dot: nat)
    requires i <= e <= |text| && IsEmailShapedAt(text[i..e], at, dot)
    requires e == |text| || !InClass(EmailTail, text[e])
    requires i == 0 || IsSpace(text[i - 1])
    ensures text[i..e] in ExtractEmails(text)
  {
    var p := EmailPattern;
    EmailMatchAt(text, i, e, at, dot);
    forall k | 0 <= k < i && MatchEnd(p, text, k).Some?
      ensures MatchEnd(p, text, k).value <= i
    {
      var e' := MatchEnd(p, text, k).value;
      MatchEndSound(p, text, k);
      AcceptedEmailIsShaped(text[k..e']);
      EmailShapedHasNoSpace(text[k..e']);
      forall j | k <= j < e' ensures !IsSpace(text[j]) {
        assert text[j] == text[k..e'][j - k];
      }
    }
    FindAllReaches(p, text, 0, i);
  }

  // ----- Phone (extract.py:23-45) --------------------------------------------

  /** The context words of `\b(Tel|Mobile|Phone|Contact|Cell)\b`, lower-cased for `re.IGNORECASE`. */
  const ContextKeywords := ["tel", "mobile", "phone", "contact", "cell"]

  predicate CaselessEquals(a: string, b: string)
  {
    |a| == |b| && forall k | 0 <= k < |a| :: LowerChar(a[k]) == LowerChar(b[k])
  }

  /** `kw` stands at `i` in `text`, case-insensitively, with a word boundary on both sides. */
  predicate KeywordAt(text: string, i: nat, kw: string)
  {
    && i + |kw| <= |text|
    && CaselessEquals(text[i..i + |kw|], kw)
    && (i == 0 || !IsWordChar(text[i - 1]))
    && (i + |kw| == |text| || !IsWordChar(text[i + |kw|]))
  }

  /** `re.search(r'\b(Tel|Mobile|Phone|Contact|Cell)\b', text, re.IGNORECASE)` succeeds. */
  predicate HasContextKeyword(text: string)
  {
    exists i: nat, kw | i < |text| && kw in ContextKeywords :: KeywordAt(text, i, kw)
  }

  /** `match.startswith(('+', 'n', '0'))` */
  predicate HasPhonePrefix(m: string)
  {
    |m| > 0 && (m[0] == '+' || m[0] == 'n' || m[0] == '0')
  }

  /** The test a raw phone match must pass to be kept. */
  predicate IsPlausiblePhone(text: string, m: string)
  {
    |m| >= 7 && (HasContextKeyword(text) || HasPhonePrefix(m))
  }

  /** The raw matches that pass the test, in the order of the matches. */
  function PlausiblePhones(text: string, phoneMatches: seq<string>): (r: seq<string>)
    ensures forall m | m in r :: m in phoneMatches && IsPlausiblePhone(text, m)
    ensures forall m | m in phoneMatches && IsPlausiblePhone(text, m) :: m in r
    decreases |phoneMatches|
  {
    if phoneMatches == [] then []
    else
      var init := phoneMatches[..|phoneMatches| - 1];
      var m := phoneMatches[|phoneMatches| - 1];
      assert phoneMatches == init + [m];
      PlausiblePhones(text, init) + if IsPlausiblePhone(text, m) then [m] else []
  }

  /** What `extract_phone_numbers_ner` returns for the raw matches `phoneMatches`. */
  function PhoneNumbers(text: string, phoneMatches: seq<string>): seq<string>
  {
    Dedup(PlausiblePhones(text, phoneMatches))
  }

  /**
   * `extract_phone_numbers_ner`, given what `re.findall` returned for the
   * phone pattern: the distinct matches of length at least 7 that start with
   * `+`, `n` or `0`, or any such match when a context word occurs anywhere
   * in the text.
   */
  method ExtractPhoneNumbers(text: string, phoneMatches: seq<string>) returns (phones: seq<string>)
    ensures phones == PhoneNumbers(text, phoneMatches)
    ensures NoDuplicates(phones)
    ensures forall m | m in phones :: m in phoneMatches && |m| >= 7 && (HasContextKeyword(text) || HasPhonePrefix(m))
    ensures forall m | m in phoneMatches && |m| >= 7 && (HasContextKeyword(text) || HasPhonePrefix(m)) :: m in phones
  {
    var valid: seq<string> := [];
    for i := 0 to |phoneMatches|
      invariant valid == PlausiblePhones(text, phoneMatches[..i])
    {
      var m := phoneMatches[i];
      assert phoneMatches[..i + 1] == phoneMatches[..i] + [m];
      if |m| >= 7 {
        var contextMatch := HasContextKeyword(text);
        if contextMatch || HasPhonePrefix(m) {
          valid := valid + [m];
        }
      }
    }
    assert phoneMatches[..|phoneMatches|] == phoneMatches;
    phones := Dedup(valid);
  }

  // ----- Website (extract.py:50-56) ------------------------------------------

  /** `(https?://[^\s]+|www\.[^\s]+)`, the optional `s` spelled out as two alternatives. */
  const WebsitePattern: FindPattern := Pattern([Lit("https://") + [Run(NotSpace)], Lit("http://") + [Run(NotSpace)], Lit("www.") + [Run(NotSpace)]], false)

  /** Starts with `http://`, `https://` or `www.`, has something after it, and has no whitespace. */
  ghost predicate IsWebsiteShaped(w: string)
  {
    && ((|w| > 7 && StartsWith(w, "http://")) || (|w| > 8 && StartsWith(w, "https://")) || (|w| > 4 && StartsWith(w, "www.")))
    && forall k | 0 <= k < |w| :: !IsSpace(w[k])
  }

  /** A word of `Lit(lit) + [Run(NotSpace)]` is `lit` followed by a non-empty run of non-space characters. */
  lemma {:induction false} LiteralThenRun(lit: string, w: string)
    requires AltAccepts(Lit(lit) + [Run(NotSpace)], w, false)
    ensures |w| > |lit| && StartsWith(w, lit)
    ensures forall k | |lit| <= k < |w| :: !IsSpace(w[k])
    decreases |lit|
  {
    var alt := Lit(lit) + [Run(NotSpace)];
    var a: nat :| a <= |w| && AtomAccepts(alt[0], w[..a], false) && AltAccepts(alt[1..], w[a..], false);
    if lit == [] {
      assert alt[1..] == [];
      forall k | 0 <= k < |w| ensures !IsSpace(w[k]) {
        assert w[k] == w[..a][k];
      }
    } else {
      assert alt[1..] == Lit(lit[1..]) + [Run(NotSpace)];
      LiteralThenRun(lit[1..], w[a..]);
      assert a == 1 && w[0] == lit[0];
      assert w[..|lit|] == [w[0]] + w[1..][..|lit| - 1];
      forall k | |lit| <= k < |w| ensures !IsSpace(w[k]) {
        assert w[k] == w[1..][k - 1];
      }
    }
  }

  lemma AcceptedWebsiteIsShaped(w: string)
    requires Accepts(WebsitePattern, w)
    ensures IsWebsiteShaped(w)
  {
    var k :| 0 <= k < 3 && AltAccepts(WebsitePattern.alts[k], w, false);
    var lit := ["https://", "http://", "www."][k];
    LiteralThenRun(lit, w);
    forall j | 0 <= j < |lit| ensures !IsSpace(w[j]) {
      assert w[j] == w[..|lit|][j];
    }
  }

  lemma FoundWebsitesAreShaped(text: string)
    ensures forall w | w in FindAll(WebsitePattern, text, 0) :: IsWebsiteShaped(w) && IsSubstring(w, text)
  {
    FindAllSound(WebsitePattern, text, 0);
    forall w | w in FindAll(WebsitePattern, text, 0) ensures IsWebsiteShaped(w) {
      AcceptedWebsiteIsShaped(w);
    }
  }

  /** `extract_website_ner`: the distinct URL-like tokens `re.findall` finds. */
  function ExtractWebsites(text: string): (r: seq<string>)
    ensures NoDuplicates(r)
    ensures forall w | w in r :: IsWebsiteShaped(w) && IsSubstring(w, text)
    ensures forall w | w in FindAll(WebsitePattern, text, 0) :: w in r
    ensures forall w | w in r :: w in FindAll(WebsitePattern, text, 0)
  {
    FoundWebsitesAreShaped(text);
    Dedup(FindAll(WebsitePattern, text, 0))
  }

  /** Matching `Lit(lit) + [Run(NotSpace)]` where `lit` stands in the text comes down to the run after it. */
  lemma {:induction false} LiteralThenRunEnd(lit: string, s: string, i: nat)
    requires i + |lit| <= |s| && s[i..i + |lit|] == lit
    ensures AltEnd(Lit(lit) + [Run(NotSpace)], s, i, false) == StepEnd(Run(NotSpace), s, i + |lit|, false)
    decreases |lit|
  {
    var alt := Lit(lit) + [Run(NotSpace)];
    if lit == [] {
      assert alt == [Run(NotSpace)] && alt[1..] == [];
    } else {
      assert alt[0] == Char(lit[0]) && alt[1..] == Lit(lit[1..]) + [Run(NotSpace)];
      assert s[i] == lit[0] by {
        assert s[i..i + |lit|][0] == s[i];
      }
      assert s[i + 1..i + 1 + |lit[1..]|] == lit[1..];
      LiteralThenRunEnd(lit[1..], s, i + 1);
    }
  }

  /** At a `www.` followed by a non-space, the website pattern matches up to the next whitespace. */
  lemma WwwMatchAt(text: string, i: nat)
    requires i + 4 < |text| && text[i..i + 4] == "www." && !IsSpace(text[i + 4])
    ensures MatchEnd(WebsitePattern, text, i) == Some(RunEnd(NotSpace, text, i))
  {
    var p := WebsitePattern;
    assert text[i] == 'w' && text[i + 1] == 'w' && text[i + 2] == 'w' && text[i + 3] == '.' by {
      assert text[i..i + 4][1] == text[i + 1] && text[i..i + 4][3] == text[i + 3];
    }
    assert RunEnd(NotSpace, text, i) == RunEnd(NotSpace, text, i + 4) by {
      assert RunEnd(NotSpace, text, i) == RunEnd(NotSpace, text, i + 1) == RunEnd(NotSpace, text, i + 2);
      assert RunEnd(NotSpace, text, i + 2) == RunEnd(NotSpace, text, i + 3) == RunEnd(NotSpace, text, i + 4);
    }
    assert AltEnd(p.alts[0], text, i, false) == None by {
      assert p.alts[0][0] == Char('h');
    }
    assert AltEnd(p.alts[1], text, i, false) == None by {
      assert p.alts[1][0] == Char('h');
    }
    LiteralThenRunEnd("www.", text, i);
    assert AltEnd(p.alts[2], text, i, false) == Some(RunEnd(NotSpace, text, i + 4));
    assert AltsEnd(p.alts, text, i, false) == AltsEnd(p.alts[1..], text, i, false);
    assert p.alts[1..][0] == p.alts[1] && p.alts[1..][1..] == [p.alts[2]];
    assert AltsEnd(p.alts[1..], text, i, false) == AltsEnd([p.alts[2]], text, i, false);
  }

  /** A run of non-space characters through a literal without whitespace ends where the run after it ends. */
  lemma RunEndPastLiteral(lit: string, text: string, i: nat)
    requires i + |lit| <= |text| && text[i..i + |lit|] == lit
    requires forall k | 0 <= k < |lit| :: !IsSpace(lit[k])
    ensures RunEnd(NotSpace, text, i) == RunEnd(NotSpace, text, i + |lit|)
  {
    var j := RunEnd(NotSpace, text, i + |lit|);
    forall k | i <= k < j ensures InClass(NotSpace, text[k]) {
      if k < i + |lit| {
        assert text[k] == text[i..i + |lit|][k - i];
      }
    }
    RunEndAt(NotSpace, text, i, j);
  }

  /** At `https://` followed by a non-space, the website pattern matches up to the next whitespace. */
  lemma HttpsMatchAt(text: string, i: nat)
    requires i + 8 < |text| && text[i..i + 8] == "https://" && !IsSpace(text[i + 8])
    ensures MatchEnd(WebsitePattern, text, i) == Some(RunEnd(NotSpace, text, i))
  {
    var p := WebsitePattern;
    RunEndPastLiteral("https://", text, i);
    LiteralThenRunEnd("https://", text, i);
    assert AltEnd(p.alts[0], text, i, false) == Some(RunEnd(NotSpace, text, i + 8));
  }

  /** At `http://` followed by a non-space, the website pattern matches up to the next whitespace. */
  lemma HttpMatchAt(text: string, i: nat)
    requires i + 7 < |text| && text[i..i + 7] == "http://" && !IsSpace(text[i + 7])
    ensures MatchEnd(WebsitePattern, text, i) == Some(RunEnd(NotSpace, text, i))
  {
    var p := WebsitePattern;
    RunEndPastLiteral("http://", text, i);
    assert text[i] == 'h' && text[i + 1] == 't' && text[i + 2] == 't' && text[i + 3] == 'p' && text[i + 4] == ':' by {
      assert text[i..i + 7][1] == text[i + 1] && text[i..i + 7][4] == text[i + 4];
    }
    var alt := p.alts[0];
    assert alt[0] == Char('h') && alt[1..][0] == Char('t') && alt[2..][0] == Char('t');
    assert alt[3..][0] == Char('p') && alt[4..][0] == Char('s');
    assert AltEnd(alt, text, i, false) == AltEnd(alt[1..], text, i + 1, false);
    assert AltEnd(alt[1..], text, i + 1, false) == AltEnd(alt[2..], text, i + 2, false);
    assert AltEnd(alt[2..], text, i + 2, false) == AltEnd(alt[3..], text, i + 3, false);
    assert AltEnd(alt[3..], text, i + 3, false) == AltEnd(alt[4..], text, i + 4, false);
    assert AltEnd(alt[4..], text, i + 4, false) == None;
    LiteralThenRunEnd("http://", text, i);
    assert AltEnd(p.alts[1], text, i, false) == Some(RunEnd(NotSpace, text, i + 7));
    assert AltsEnd(p.alts, text, i, false) == AltsEnd(p.alts[1..], text, i, false);
    assert p.alts[1..][0] == p.alts[1];
  }

  /** `text` has the website prefix `lit` at `i`, followed by a non-space character. */
  predicate UrlStartsAt(text: string, i: nat, lit: string)
  {
    && (lit == "https://" || lit == "http://" || lit == "www.")
    && i + |lit| < |text| && text[i..i + |lit|] == lit && !IsSpace(text[i + |lit|])
  }

  /**
   * A token starting with `http://`, `https://` or `www.` at the start of
   * the text or after whitespace is found whole, up to the next whitespace.
   */
  lemma WebsiteTokenFound(text: string, i: nat, lit: string)
    requires UrlStartsAt(text, i, lit)
    requires i == 0 || IsSpace(text[i - 1])
    ensures text[i..RunEnd(NotSpace, text, i)] in ExtractWebsites(text)
  {
    var p := WebsitePattern;
    if lit == "https://" {
      HttpsMatchAt(text, i);
    } else if lit == "http://" {
      HttpMatchAt(text, i);
    } else {
      WwwMatchAt(text, i);
    }
    forall k | 0 <= k < i && MatchEnd(p, text, k).Some?
      ensures MatchEnd(p, text, k).value <= i
    {
      var e := MatchEnd(p, text, k).value;
      MatchEndSound(p, text, k);
      AcceptedWebsiteIsShaped(text[k..e]);
      forall j | k <= j < e ensures !IsSpace(text[j]) {
        assert text[j] == text[k..e][j - k];
      }
    }
    FindAllReaches(p, text, 0, i);
  }

  // ----- Named entities (extract.py:61-81) -----------------------------------

  /** One spaCy entity: its label (`ent.label_`, here `kind`) and its text (`ent.text`). */
  datatype Entity = Entity(kind: string, text: string)

  /** `[ent.text for ent in ents if ent.label_ in labels]` */
  function TextsWithLabels(ents: seq<Entity>, labels: set<string>): (r: seq<string>)
    ensures |r| <= |ents|
    ensures forall t | t in r :: exists i | 0 <= i < |ents| :: ents[i].kind in labels && ents[i].text == t
    ensures forall i | 0 <= i < |ents| && ents[i].kind in labels :: ents[i].text in r
    decreases |ents|
  {
    if ents == [] then []
    else
      var init := ents[..|ents| - 1];
      var e := ents[|ents| - 1];
      var rest := TextsWithLabels(init, labels);
      assert forall t | t in rest :: exists i | 0 <= i < |ents| :: ents[i].kind in labels && ents[i].text == t by {
        forall t | t in rest ensures exists i | 0 <= i < |ents| :: ents[i].kind in labels && ents[i].text == t {
          var i :| 0 <= i < |init| && init[i].kind in labels && init[i].text == t;
          assert ents[i] == init[i];
        }
      }
      assert forall i | 0 <= i < |init| :: ents[i] == init[i];
      rest + if e.kind in labels then [e.text] else []
  }

  /**
   * `r` is the text of the first entity labelled `label` in document order,
   * or None when no entity carries that label.
   */
  ghost predicate IsFirstWithLabel(ents: seq<Entity>, kind: string, r: Option<string>)
  {
    match r
    case None => forall i | 0 <= i < |ents| :: ents[i].kind != kind
    case Some(t) =>
      exists i | 0 <= i < |ents| :: ents[i] == Entity(kind, t) && forall j | 0 <= j < i :: ents[j].kind != kind
  }

  /** `names[0] if names else None` picks the first entity with the label. */
  lemma {:induction false} FirstTextIsFirstEntity(ents: seq<Entity>, kind: string)
    ensures IsFirstWithLabel(ents, kind, First(TextsWithLabels(ents, {kind})))
    decreases |ents|
  {
    if ents != [] {
      var n := |ents| - 1;
      var init, e := ents[..n], ents[n];
      FirstTextIsFirstEntity(init, kind);
      var rest := TextsWithLabels(init, {kind});
      var last := if e.kind in {kind} then [e.text] else [];
      assert TextsWithLabels(ents, {kind}) == rest + last;
      assert forall j | 0 <= j < n :: ents[j] == init[j];
      if rest != [] {
        assert First(rest + last) == Some(rest[0]) by {
          assert (rest + last)[0] == rest[0];
        }
        var i :| 0 <= i < n && init[i] == Entity(kind, rest[0]) && forall j | 0 <= j < i :: init[j].kind != kind;
        assert ents[i] == Entity(kind, rest[0]) && forall j | 0 <= j < i :: ents[j].kind != kind;
      } else if e.kind == kind {
        assert rest + last == [e.text];
        assert ents[n] == Entity(kind, e.text) && forall j | 0 <= j < n :: ents[j].kind != kind;
      } else {
        assert rest + last == [];
        assert forall j | 0 <= j < |ents| :: ents[j].kind != kind;
      }
    }
  }

  /**
   * `extract_entities_with_ner`: the first PERSON is the agent name and the
   * first ORG the company name; entities with any other label are ignored.
   */
  method ExtractEntities(ents: seq<Entity>) returns (agentName: Option<string>, companyName: Option<string>)
    ensures agentName == First(TextsWithLabels(ents, {"PERSON"}))
    ensures companyName == First(TextsWithLabels(ents, {"ORG"}))
    ensures IsFirstWithLabel(ents, "PERSON", agentName)
    ensures IsFirstWithLabel(ents, "ORG", companyName)
  {
    var names: seq<string> := [];
    var organizations: seq<string> := [];
    for i := 0 to |ents|
      invariant names == TextsWithLabels(ents[..i], {"PERSON"})
      invariant organizations == TextsWithLabels(ents[..i], {"ORG"})
    {
      var ent := ents[i];
      assert ents[..i + 1][..i] == ents[..i] && ents[..i + 1][i] == ent;
      if ent.kind == "PERSON" {
        names := names + [ent.text];
      } else if ent.kind == "ORG" {
        organizations := organizations + [ent.text];
      }
    }
    assert ents[..|ents|] == ents;
    agentName := if names != [] then Some(names[0]) else None;
    companyName := if organizations != [] then Some(organizations[0]) else None;
    FirstTextIsFirstEntity(ents, "PERSON");
    FirstTextIsFirstEntity(ents, "ORG");
  }

  // ----- Social media (extract.py:86-109) ------------------------------------

  /** `(facebook\.com/[^\s]+|FB:[^\s]+|facebook.com|FB/|fb.com)`, case-insensitive. */
  const FacebookPattern: FindPattern := Pattern([
    Lit("facebook.com/") + [Run(NotSpace)], Lit("FB:") + [Run(NotSpace)],
    Lit("facebook") + [AnyButNewline] + Lit("com"), Lit("FB/"), Lit("fb") + [AnyButNewline] + Lit("com")], true)

  /** `(instagram\.com/[^\s]+|IG:[^\s]+|instagram.com|IG/|ig.com)`, case-insensitive. */
  const InstagramPattern: FindPattern := Pattern([
    Lit("instagram.com/") + [Run(NotSpace)], Lit("IG:") + [Run(NotSpace)],
    Lit("instagram") + [AnyButNewline] + Lit("com"), Lit("IG/"), Lit("ig") + [AnyButNewline] + Lit("com")], true)

  /** `(twitter\.com/[^\s]+|Twitter:[^\s]+|twitter.com|Twitter/|t.co)`, case-insensitive. */
  const TwitterPattern: FindPattern := Pattern([
    Lit("twitter.com/") + [Run(NotSpace)], Lit("Twitter:") + [Run(NotSpace)],
    Lit("twitter") + [AnyButNewline] + Lit("com"), Lit("Twitter/"), Lit("t") + [AnyButNewline] + Lit("co")], true)

  const Platforms: set<string> := {"facebook", "instagram", "twitter"}

  /** `r` is the leftmost match of `p` in `text`, or None when `p` matches nowhere. */
  ghost predicate IsFirstMatch(p: FindPattern, text: string, r: Option<string>)
  {
    match r
    case None => NoMatchBetween(p, text, 0, |text|)
    case Some(w) => IsLeftmostMatch(p, text, 0, w)
  }

  /** `findall(...)[0] if ... else None` is the leftmost match, or None when there is none. */
  lemma FirstFoundIsFirstMatch(p: FindPattern, text: string)
    ensures IsFirstMatch(p, text, First(FindAll(p, text, 0)))
  {
    FirstOfFindAll(p, text, 0);
  }

  /**
   * `extract_social_media_ner`: a dictionary with exactly the keys facebook,
   * instagram and twitter, each holding the first match of that platform's
   * pattern or None.
   */
  method ExtractSocialMedia(text: string) returns (socialMedia: map<string, Option<string>>)
    ensures socialMedia.Keys == Platforms
    ensures socialMedia["facebook"] == First(FindAll(FacebookPattern, text, 0))
    ensures socialMedia["instagram"] == First(FindAll(InstagramPattern, text, 0))
    ensures socialMedia["twitter"] == First(FindAll(TwitterPattern, text, 0))
    ensures IsFirstMatch(FacebookPattern, text, socialMedia["facebook"])
    ensures IsFirstMatch(InstagramPattern, text, socialMedia["instagram"])
    ensures IsFirstMatch(TwitterPattern, text, socialMedia["twitter"])
  {
    socialMedia := map["facebook" := None, "instagram" := None, "twitter" := None];
    var fbMatch := FindAll(FacebookPattern, text, 0);
    var igMatch := FindAll(InstagramPattern, text, 0);
    var twitterMatch := FindAll(TwitterPattern, text, 0);
    socialMedia := socialMedia["facebook" := if fbMatch != [] then Some(fbMatch[0]) else None];
    socialMedia := socialMedia["instagram" := if igMatch != [] then Some(igMatch[0]) else None];
    socialMedia := socialMedia["twitter" := if twitterMatch != [] then Some(twitterMatch[0]) else None];
    FirstFoundIsFirstMatch(FacebookPattern, text);
    FirstFoundIsFirstMatch(InstagramPattern, text);
    FirstFoundIsFirstMatch(TwitterPattern, text);
  }

  // ----- Address (extract.py:114-141) ----------------------------------------

  /** The entity labels kept as extra address candidates. */
  const LocationLabels: set<string> := {"GPE", "LOC", "FAC"}

  /** Candidates dropped when they are, lower-cased, exactly one of these. */
  const StopCountries: set<string> := {"kenya", "uganda", "tanzania"}

  predicate IsStopCountry(a: string)
  {
    Lower(a) in StopCountries
  }

  /** `[addr for addr in addresses if addr.lower() not in {...}]` */
  function DropStopCountries(addresses: seq<string>): (r: seq<string>)
    ensures forall a | a in r :: a in addresses && !IsStopCountry(a)
    ensures forall a | a in addresses && !IsStopCountry(a) :: a in r
    ensures NoDuplicates(addresses) ==> NoDuplicates(r)
    decreases |addresses|
  {
    if addresses == [] then []
    else
      var rest := DropStopCountries(addresses[1..]);
      assert addresses == [addresses[0]] + addresses[1..];
      if IsStopCountry(addresses[0]) then rest else [addresses[0]] + rest
  }

  /** The regex matches and the GPE/LOC/FAC entity texts, deduplicated and filtered. */
  function AddressParts(addressMatches: seq<string>, ents: seq<Entity>): (r: seq<string>)
    ensures NoDuplicates(r)
    ensures forall a | a in r :: !IsStopCountry(a) && a in addressMatches + TextsWithLabels(ents, LocationLabels)
    ensures forall a | a in addressMatches + TextsWithLabels(ents, LocationLabels) && !IsStopCountry(a) :: a in r
  {
    DropStopCountries(Dedup(addressMatches + TextsWithLabels(ents, LocationLabels)))
  }

  /**
   * `extract_address_ner`, given what `re.findall` returned for the address
   * pattern: None when every candidate is a bare stop-listed country, and
   * otherwise the kept candidates joined with ", ", each of them readable in
   * the result.
   */
  function ExtractAddress(addressMatches: seq<string>, ents: seq<Entity>): (r: Option<string>)
    ensures r.None? <==> forall a | a in addressMatches + TextsWithLabels(ents, LocationLabels) :: IsStopCountry(a)
    ensures r.Some? ==> r.value == Join(AddressParts(addressMatches, ents), ", ")
    ensures r.Some? ==> forall a | a in addressMatches + TextsWithLabels(ents, LocationLabels) && !IsStopCountry(a)
                          :: IsSubstring(a, r.value)
  {
    var finalAddress := AddressParts(addressMatches, ents);
    if finalAddress == [] then None
    else
      assert finalAddress[0] in finalAddress;
      assert forall k | 0 <= k < |finalAddress| :: IsSubstring(finalAddress[k], Join(finalAddress, ", ")) by {
        forall k | 0 <= k < |finalAddress| ensures IsSubstring(finalAddress[k], Join(finalAddress, ", ")) {
          JoinContainsEach(finalAddress, ", ", k);
        }
      }
      Some(Join(finalAddress, ", "))
  }

  // ----- Arbitration (extract.py:164-203) ------------------------------------

  /** The dictionary `restructure_extracted_text_to_json` returns. */
  datatype Record = Record(
    organizationName: Option<string>,
    primaryPhoneNumber: Option<string>,
    otherPhoneNumber: Option<string>,
    email: Option<string>,
    industry: Option<string>,
    city: Option<string>,
    country: Option<string>,
    website: Option<string>)

  /**
   * Builds the record from the candidate lists in whatever order they are
   * listed. For any order: industry is absent, the organization is the
   * company name, every other field is absent exactly when its list is empty
   * (the other phone: when there are fewer than two phones) and otherwise an
   * element of its list, and two distinct phones never fill both phone fields
   * with the same number.
   */
  function BuildRecord(companyName: Option<string>, phoneNumbers: seq<string>, emails: seq<string>,
                       websites: seq<string>, cities: seq<string>, countries: seq<string>): (r: Record)
    ensures r.industry == None
    ensures r.organizationName == companyName
    ensures r.primaryPhoneNumber.None? <==> phoneNumbers == []
    ensures r.primaryPhoneNumber.Some? ==> r.primaryPhoneNumber.value in phoneNumbers
    ensures r.otherPhoneNumber.Some? <==> |phoneNumbers| >= 2
    ensures r.otherPhoneNumber.Some? ==> r.otherPhoneNumber.value in phoneNumbers
    ensures NoDuplicates(phoneNumbers) && r.otherPhoneNumber.Some? ==> r.otherPhoneNumber != r.primaryPhoneNumber
    ensures r.email.None? <==> emails == []
    ensures r.email.Some? ==> r.email.value in emails
    ensures r.website.None? <==> websites == []
    ensures r.website.Some? ==> r.website.value in websites
    ensures r.city.None? <==> cities == []
    ensures r.city.Some? ==> r.city.value in cities
    ensures r.country.None? <==> countries == []
    ensures r.country.Some? ==> r.country.value in countries
  {
    Record(
      organizationName := companyName,
      primaryPhoneNumber := if phoneNumbers != [] then Some(phoneNumbers[0]) else None,
      otherPhoneNumber := if |phoneNumbers| > 1 then Some(phoneNumbers[1]) else None,
      email := if emails != [] then Some(emails[0]) else None,
      industry := None,
      city := if cities != [] then Some(cities[0]) else None,
      country := if countries != [] then Some(countries[0]) else None,
      website := if websites != [] then Some(websites[0]) else None)
  }

  /**
   * `restructure_extracted_text_to_json`: runs five extractors on the text
   * (emails, phone numbers, websites, entities and address) and arbitrates
   * their candidates into the record. The social-media extractor is not
   * run, as in the source. The address is computed, as in the source, and
   * left out of the record.
   */
  method RestructureExtractedText(extractedText: string, ents: seq<Entity>, phoneMatches: seq<string>,
                                  addressMatches: seq<string>, cities: seq<string>, countries: seq<string>)
    returns (rec: Record)
    ensures rec == BuildRecord(First(TextsWithLabels(ents, {"ORG"})), PhoneNumbers(extractedText, phoneMatches),
                               ExtractEmails(extractedText), ExtractWebsites(extractedText), cities, countries)
    ensures rec.industry == None
    ensures IsFirstWithLabel(ents, "ORG", rec.organizationName)
    ensures rec.primaryPhoneNumber.None? <==> forall m | m in phoneMatches :: !IsPlausiblePhone(extractedText, m)
    ensures rec.otherPhoneNumber.Some? ==> rec.primaryPhoneNumber.Some? && rec.otherPhoneNumber != rec.primaryPhoneNumber
    ensures rec.email.Some? ==> IsEmailShaped(rec.email.value)
    ensures rec.website.Some? ==> IsWebsiteShaped(rec.website.value)
  {
    var emails := ExtractEmails(extractedText);
    var phoneNumbers := ExtractPhoneNumbers(extractedText, phoneMatches);
    var websites := ExtractWebsites(extractedText);
    var agentName, companyName := ExtractEntities(ents);
    var address := ExtractAddress(addressMatches, ents);

    rec := BuildRecord(companyName, phoneNumbers, emails, websites, cities, countries);
    if phoneNumbers == [] {
      forall m | m in phoneMatches ensures !IsPlausiblePhone(extractedText, m) {
      }
    } else {
      assert phoneNumbers[0] in phoneNumbers;
    }
    if emails != [] {
      assert rec.email.value in emails;
    }
    if websites != [] {
      assert rec.website.value in websites;
    }
  }

  // ----- Worked examples -----------------------------------------------------

  /** A `www.` token between spaces is found whole. */
  lemma WebsiteExample()
    ensures "www.abccorp.com" in ExtractWebsites("Visit www.abccorp.com today")
  {
    var text := "Visit www.abccorp.com today";
    ExampleTokenAt(text);
    WebsiteTokenFound(text, 6, "www.");
    ExampleTokenEnd(text);
  }

  lemma ExampleTokenAt(text: string)
    requires text == "Visit " + "www.abccorp.com" + " today"
    ensures |text| == 27 && text[6..10] == "www." && !IsSpace(text[10]) && IsSpace(text[5])
  {
    assert text[6..10] == "www.abccorp.com"[..4];
  }

  lemma ExampleTokenEnd(text: string)
    requires text == "Visit " + "www.abccorp.com" + " today"
    ensures RunEnd(NotSpace, text, 6) == 21 && text[6..21] == "www.abccorp.com"
  {
    var w := "www.abccorp.com";
    assert text[6..21] == w by {
      assert forall k | 0 <= k < 15 :: text[6 + k] == w[k];
    }
    forall k | 6 <= k < 21 ensures InClass(NotSpace, text[k]) {
      assert text[k] in w;
    }
    RunEndAt(NotSpace, text, 6, 21);
  }

  /** The address in "contact: a.b+c@sub.example.co / ignore" is found whole. */
  lemma EmailExample()
    ensures "a.b+c@sub.example.co" in ExtractEmails("contact: a.b+c@sub.example.co / ignore")
  {
    var w := "a.b+c@sub.example.co";
    var text := "contact: " + w + " / ignore";
    assert text == "contact: a.b+c@sub.example.co / ignore";
    ExampleEmailShaped(w);
    assert text[9..29] == w by {
      assert forall k | 0 <= k < 20 :: text[9 + k] == w[k];
    }
    assert IsSpace(text[8]) && text[29] == ' ';
    EmailClassesStop();
    EmailTokenFound(text, 9, 29, 5, 9);
  }

  lemma ExampleEmailShaped(w: string)
    requires w == "a.b+c@sub.example.co"
    ensures IsEmailShapedAt(w, 5, 9)
  {
    assert InClass(EmailLocal, '.') && InClass(EmailLocal, '+') by {
      assert EmailLocal.ranges[4] == ('.', '.') && EmailLocal.ranges[5] == ('+', '+');
    }
    assert InClass(EmailTail, '.') by {
      assert EmailTail.ranges[4] == ('.', '.');
    }
    forall k | 0 <= k < 5 ensures InClass(EmailLocal, w[k]) {
      if k != 1 && k != 3 {
        LowercaseInEmailClasses(w[k]);
      }
    }
    forall k | 5 < k < 9 ensures InClass(EmailDomain, w[k]) {
      LowercaseInEmailClasses(w[k]);
    }
    forall k | 9 < k < 20 ensures InClass(EmailTail, w[k]) {
      if k != 17 {
        LowercaseInEmailClasses(w[k]);
      }
    }
  }

  lemma LowercaseInEmailClasses(c: char)
    requires 'a' <= c <= 'z'
    ensures InClass(EmailLocal, c) && InClass(EmailDomain, c) && InClass(EmailTail, c)
  {
    assert EmailLocal.ranges[0] == ('a', 'z') && EmailDomain.ranges[0] == ('a', 'z') && EmailTail.ranges[0] == ('a', 'z');
  }

  /** A number starting with 0 is kept without any context word. */
  lemma PhoneExample()
    ensures !HasContextKeyword("random 0720953165 noise")
    ensures "0720953165" in PhoneNumbers("random 0720953165 noise", ["0720953165"])
  {
    var text := "random 0720953165 noise";
    forall i: nat, kw | i < |text| && kw in ContextKeywords ensures !KeywordAt(text, i, kw) {
      assert KeywordAt(text, i, kw) ==> LowerChar(text[i]) == LowerChar(kw[0]) by {
        if KeywordAt(text, i, kw) {
          assert text[i..i + |kw|][0] == text[i];
        }
      }
    }
    assert HasPhonePrefix("0720953165");
  }

  /** A bare "Kenya" is dropped from the address, a street address mentioning Kenya is kept. */
  lemma AddressExample()
    ensures ExtractAddress(["Kenya"], []) == None
    ensures ExtractAddress(["1234 Some Avenue, Nairobi, Kenya"], []) == Some("1234 Some Avenue, Nairobi, Kenya")
  {
    assert Lower("Kenya") == "kenya";
    var a := "1234 Some Avenue, Nairobi, Kenya";
    assert Lower(a)[0] == '1';
    assert TextsWithLabels([], LocationLabels) == [];
    assert [a] + [] == [a];
    assert Dedup([a]) == [a] by {
      assert [a][..0] == [];
    }
    assert DropStopCountries([a]) == [a] by {
      assert [a][1..] == [];
    }
    assert AddressParts([a], []) == [a];
  }
}
