/** `extractSerialNumberFromPDF`: classify one file by its name. The document
    content is never read; the barcode attempt and the seven coordinate-area
    attempts are random draws in the source, given here as an oracle
    `attempt(k)` (attempt 0 is the barcode, attempts 1 to 7 the areas of
    `COORDINATE_VARIATIONS` in order). Every successful attempt can only
    surface the serial number found in the file name. */
module SerialExtraction {
  import opened Wrappers
  import opened JsText

  /** `COORDINATE_VARIATIONS.length`. */
  const AREA_COUNT: nat := 7

  /** The barcode attempt followed by one attempt per coordinate area. */
  const ATTEMPT_COUNT: nat := 1 + AREA_COUNT

  const SERIAL_LENGTH: nat := 9

  const INVALID_FILE := "Arquivo inválido ou corrompido"
  const CORRUPT_PDF := "Arquivo PDF corrompido ou ilegível"
  const PROTECTED_PDF := "PDF protegido por senha"

  /** A thrown value: an `Error` object with its message, or anything else. */
  datatype Thrown = ErrorObject(message: string) | NonError

  /** The outcome of one extraction: the serial number string, `null`, or a
      thrown value. */
  datatype Extraction = Found(serial: string) | NotFound | Threw(thrown: Thrown)

  /** Nine characters of the shape `1[A-Z][0-9]{6}[A-Z]`. */
  predicate IsSerial(t: string) {
    && |t| == SERIAL_LENGTH
    && t[0] == '1'
    && IsAsciiUpper(t[1])
    && (forall i :: 2 <= i < 8 ==> IsDigit(t[i]))
    && IsAsciiUpper(t[8])
  }

  /** `/\b1[A-Z][0-9]{6}[A-Z]\b/` matches `s` at position `p`: the token is
      neither preceded nor followed by a word character. */
  predicate MatchesAt(s: string, p: nat) {
    && p + SERIAL_LENGTH <= |s|
    && IsSerial(s[p..p + SERIAL_LENGTH])
    && (p == 0 || !IsWordChar(s[p - 1]))
    && (p + SERIAL_LENGTH == |s| || !IsWordChar(s[p + SERIAL_LENGTH]))
  }

  /** The leftmost match position at or after `from`. */
  function FirstMatchFrom(s: string, from: nat): (r: Option<nat>)
    ensures r.Some? ==>
              from <= r.value && MatchesAt(s, r.value) &&
              forall q :: from <= q < r.value ==> !MatchesAt(s, q)
    ensures r.None? ==> forall q :: from <= q ==> !MatchesAt(s, q)
    decreases |s| - from
  {
    if from + SERIAL_LENGTH > |s| then None
    else if MatchesAt(s, from) then Some(from)
    else FirstMatchFrom(s, from + 1)
  }

  /** `s.match(serialPattern)`, its whole match upper-cased, or `None` for
      `null`. */
  function MatchSerial(s: string): (r: Option<string>)
    ensures r.Some? <==> FirstMatchFrom(s, 0).Some?
    ensures r.Some? ==> IsSerial(r.value)
  {
    match FirstMatchFrom(s, 0)
    case None => None
    case Some(p) =>
      var t := s[p..p + SERIAL_LENGTH];
      assert IsSerial(t);
      UpperCaseOfUpper(t);
      Some(ToUpperCase(t))
  }

  /** The match is the leftmost token with word boundaries on both sides,
      and upper-casing it changes nothing. */
  lemma MatchSerialIsLeftmostToken(s: string)
    ensures MatchSerial(s).Some? <==> exists p: nat :: MatchesAt(s, p)
    ensures MatchSerial(s).Some? ==>
              exists p: nat :: && MatchesAt(s, p)
                               && MatchSerial(s).value == s[p..p + SERIAL_LENGTH]
                               && forall q :: 0 <= q < p ==> !MatchesAt(s, q)
    ensures MatchSerial(s).Some? ==> IsSerial(MatchSerial(s).value)
  {
    var r := FirstMatchFrom(s, 0);
    if r.Some? {
      var t := s[r.value..r.value + SERIAL_LENGTH];
      assert IsSerial(t);
      UpperCaseOfUpper(t);
    }
  }

  /** The name the serial number is searched in: `name.replace('.pdf', '')`,
      which drops only the first occurrence. */
  function StripPdf(name: string): (s: string)
    ensures !Includes(name, ".pdf") ==> s == name
    ensures Includes(name, ".pdf") ==> |s| == |name| - 4
  {
    ReplaceFirst(name, ".pdf", "")
  }

  /** The lower-cased name contains one of the corruption markers. */
  predicate MarksCorrupt(name: string): (b: bool)
    ensures b <==> exists i: nat ::
              OccursAt(ToLowerCase(name), "corrupt", i) || OccursAt(ToLowerCase(name), "erro", i)
  {
    var lower := ToLowerCase(name);
    Includes(lower, "corrupt") || Includes(lower, "erro")
  }

  /** The lower-cased name contains one of the password markers. */
  predicate MarksProtected(name: string): (b: bool)
    ensures b <==> exists i: nat ::
              OccursAt(ToLowerCase(name), "protect", i) || OccursAt(ToLowerCase(name), "senha", i)
  {
    var lower := ToLowerCase(name);
    Includes(lower, "protect") || Includes(lower, "senha")
  }

  /** Some attempt among the barcode and the seven areas succeeds. */
  predicate AnyAttemptSucceeds(attempt: nat -> bool) {
    exists k :: 0 <= k < ATTEMPT_COUNT && attempt(k)
  }

  /** What one extraction yields, as a function of the name and the draws:
      a missing name, then a corruption marker, then a password marker throw;
      otherwise the serial number in the stripped name is returned when any
      attempt succeeds, and `null` when none does or there is none. */
  function Classify(name: string, attempt: nat -> bool): (r: Extraction)
    ensures r.Threw? <==> name == "" || MarksCorrupt(name) || MarksProtected(name)
    ensures r.Threw? ==> r.thrown.ErrorObject?
    ensures r.Found? ==> MatchSerial(StripPdf(name)) == Some(r.serial) && IsSerial(r.serial)
    ensures MatchSerial(StripPdf(name)).None? ==> !r.Found?
    ensures !r.Threw? && MatchSerial(StripPdf(name)).Some? ==>
              (r == Found(MatchSerial(StripPdf(name)).value) <==> AnyAttemptSucceeds(attempt))
    ensures !r.Threw? && !r.Found? ==> r == NotFound
  {
    if name == "" then Threw(ErrorObject(INVALID_FILE))
    else if MarksCorrupt(name) then Threw(ErrorObject(CORRUPT_PDF))
    else if MarksProtected(name) then Threw(ErrorObject(PROTECTED_PDF))
    else match MatchSerial(StripPdf(name))
      case None => NotFound
      case Some(t) =>
        MatchSerialIsLeftmostToken(StripPdf(name));
        if AnyAttemptSucceeds(attempt) then Found(t) else NotFound
  }

  /** The messages thrown: a missing name first, a corruption marker before
      a password marker, so a name with both reports corruption. */
  lemma ThrownMessages(name: string, attempt: nat -> bool)
    ensures name == "" ==> Classify(name, attempt) == Threw(ErrorObject(INVALID_FILE))
    ensures name != "" && MarksCorrupt(name) ==>
              Classify(name, attempt) == Threw(ErrorObject(CORRUPT_PDF))
    ensures name != "" && !MarksCorrupt(name) && MarksProtected(name) ==>
              Classify(name, attempt) == Threw(ErrorObject(PROTECTED_PDF))
  {
  }

  /** The draws only decide between the one serial number of the name and
      `null`: a name without a token gives the same outcome for every draw,
      and two draws that both find a serial number find the same one. */
  lemma DrawsOnlyDecideWhetherFound(name: string, a: nat -> bool, b: nat -> bool)
    ensures MatchSerial(StripPdf(name)).None? ==> Classify(name, a) == Classify(name, b)
    ensures Classify(name, a).Found? && Classify(name, b).Found? ==>
              Classify(name, a) == Classify(name, b)
    ensures Classify(name, a).Found? && !Classify(name, b).Found? ==>
              Classify(name, b) == NotFound && !AnyAttemptSucceeds(b)
  {
  }

  /** JavaScript's `\b` treats `_` as a word character, so an underscore
      before the token hides it. */
  lemma UnderscoreHidesToken()
    ensures MatchSerial("x_1A234567B") == None
  {
    var s := "x_1A234567B";
    assert !MatchesAt(s, 0) && !MatchesAt(s, 1);
    assert !MatchesAt(s, 2) by { assert IsWordChar(s[1]); }
    assert FirstMatchFrom(s, 0) == None;
  }

  /** A hyphen is not a word character, so the token after it is found. */
  lemma HyphenKeepsToken()
    ensures MatchSerial("x-1A234567B") == Some("1A234567B")
  {
    var t := "x-1A234567B";
    var token := "1A234567B";
    assert t[2..11] == token;
    assert IsSerial(token);
    assert MatchesAt(t, 2);
    assert !MatchesAt(t, 0) && !MatchesAt(t, 1);
    assert FirstMatchFrom(t, 0) == Some(2);
    UpperCaseOfUpper(token);
    assert MatchSerial(t) == Some(ToUpperCase(token));
  }

  /** A tenth letter right after the token leaves no word boundary there. */
  lemma TrailingLetterHidesToken()
    ensures MatchSerial("1A234567BC") == None
  {
    var u := "1A234567BC";
    assert !MatchesAt(u, 0) by { assert IsWordChar(u[9]); }
    assert !MatchesAt(u, 1);
    assert FirstMatchFrom(u, 0) == None;
  }

  /** "1A234567B.pdf" carries none of the error markers. */
  lemma SerialNameUnmarked()
    ensures !MarksCorrupt("1A234567B.pdf") && !MarksProtected("1A234567B.pdf")
  {
    var name := "1A234567B.pdf";
    var lower := ToLowerCase(name);
    assert |lower| == 13;
    assert forall i :: 0 <= i < 13 ==> lower[i] == LowerChar(name[i]);
    forall i | 0 <= i < 10 ensures lower[i] !in "ceps" {
      assert name[..10] == "1A234567B.";
      assert name[i] in name[..10];
    }
    NotIncludes(lower, "corrupt");
    NotIncludes(lower, "erro");
    NotIncludes(lower, "protect");
    NotIncludes(lower, "senha");
  }

  /** Dropping ".pdf" from "1A234567B.pdf" leaves its first nine characters. */
  lemma SerialNameStripped()
    ensures StripPdf("1A234567B.pdf") == "1A234567B"
  {
    var name := "1A234567B.pdf";
    assert OccursAt(name, ".pdf", 9);
    forall j | 0 <= j < 9 ensures !OccursAt(name, ".pdf", j) {
      assert name[j..j + 4][0] == name[j];
    }
    IndexOfFirst(name, ".pdf", 9);
    assert name[..9] == "1A234567B";
  }

  /** A lone serial number is matched as itself. */
  lemma LoneSerialMatches()
    ensures MatchSerial("1A234567B") == Some("1A234567B")
  {
    var t := "1A234567B";
    assert t[0..9] == t;
    assert forall i :: 2 <= i < 8 ==> IsDigit(t[i]);
    assert IsSerial(t);
    assert MatchesAt(t, 0);
    UpperCaseOfUpper(t);
  }

  /** A file named after its serial number yields it as soon as an attempt
      succeeds, and `null` when every attempt fails. */
  lemma SerialNamedFile(a: nat -> bool)
    ensures a(0) ==> Classify("1A234567B.pdf", a) == Found("1A234567B")
    ensures !AnyAttemptSucceeds(a) ==> Classify("1A234567B.pdf", a) == NotFound
  {
    SerialNameUnmarked();
    SerialNameStripped();
    LoneSerialMatches();
  }

  /** A name containing "erro" throws the corruption message whatever the
      draws, even though it also contains "senha". */
  lemma CorruptBeforeProtected(a: nat -> bool)
    ensures Classify("erro_senha.pdf", a) == Threw(ErrorObject(CORRUPT_PDF))
  {
    var name := "erro_senha.pdf";
    assert ToLowerCase(name) == name;
    assert OccursAt(name, "erro", 0);
  }

  /** An unmarked name whose stripped form has a match yields it at any
      successful attempt. */
  lemma FoundAtAttempt(name: string, attempt: nat -> bool, k: nat)
    requires name != "" && !MarksCorrupt(name) && !MarksProtected(name)
    requires k < ATTEMPT_COUNT && attempt(k) && MatchSerial(StripPdf(name)).Some?
    ensures Classify(name, attempt) == Found(MatchSerial(StripPdf(name)).value)
  {
  }

  /** An unmarked name yields `null` when its stripped form has no match or
      no attempt succeeds. */
  lemma NotFoundAfterAttempts(name: string, attempt: nat -> bool)
    requires name != "" && !MarksCorrupt(name) && !MarksProtected(name)
    requires MatchSerial(StripPdf(name)).Some? ==> forall k :: 0 <= k < ATTEMPT_COUNT ==> !attempt(k)
    ensures Classify(name, attempt) == NotFound
  {
  }

  /** `extractSerialNumberFromPDF`: the barcode attempt, then the coordinate
      areas in order, returning at the first attempt that succeeds and finds
      the serial number in the stripped name. */
  method ExtractSerialNumberFromPdf(name: string, attempt: nat -> bool) returns (r: Extraction)
    ensures r == Classify(name, attempt)
  {
    if name == "" {
      return Threw(ErrorObject(INVALID_FILE));
    }
    var fileName := ToLowerCase(name);
    ThrownMessages(name, attempt);
    if Includes(fileName, "corrupt") || Includes(fileName, "erro") {
      return Threw(ErrorObject(CORRUPT_PDF));
    }
    if Includes(fileName, "protect") || Includes(fileName, "senha") {
      return Threw(ErrorObject(PROTECTED_PDF));
    }
    if attempt(0) {
      var serialMatch := MatchSerial(ReplaceFirst(name, ".pdf", ""));
      if serialMatch.Some? {
        FoundAtAttempt(name, attempt, 0);
        return Found(serialMatch.value);
      }
    }
    var i := 0;
    while i < AREA_COUNT
      invariant 0 <= i <= AREA_COUNT
      invariant MatchSerial(StripPdf(name)).Some? ==> forall k :: 0 <= k <= i ==> !attempt(k)
    {
      if attempt(i + 1) {
        var serialMatch := MatchSerial(ReplaceFirst(name, ".pdf", ""));
        if serialMatch.Some? {
          FoundAtAttempt(name, attempt, i + 1);
          return Found(serialMatch.value);
        }
      }
      i := i + 1;
    }
    NotFoundAfterAttempts(name, attempt);
    return NotFound;
  }
}
