/**
 * The registration modal of the web client: a text area holding one QR code
 * per line, an auto-generate button that appends random codes, and the
 * register and cancel buttons. Sending the codes to the server is not
 * implemented in the client; submitting only reports their count.
 */
module QRCodeGeneration {
  import opened Types
  import opened Text

  // ---------------------------------------------------------------- random codes

  const Alphabet: string := "ABCDEFGHIJKLMNOPQRSTUVWXYZ0123456789"
  const CodeLength: nat := 12

  /** An upper-case ASCII letter or a decimal digit. */
  predicate IsCodeChar(c: char) {
    'A' <= c <= 'Z' || '0' <= c <= '9'
  }

  /** Twelve characters, each an upper-case ASCII letter or a decimal digit. */
  predicate IsGeneratedCode(s: string) {
    |s| == CodeLength && forall i :: 0 <= i < |s| ==> IsCodeChar(s[i])
  }

  /** The alphabet holds 36 characters, each a capital letter or a digit. */
  lemma AlphabetIsCodeChars()
    ensures |Alphabet| == 36
    ensures forall i :: 0 <= i < |Alphabet| ==> IsCodeChar(Alphabet[i])
  {
  }

  /**
   * `generateRandomQRCode`: twelve characters, each `chars.charAt(k)` for a
   * position `k` that `Math.random` picks; here the position is arbitrary.
   */
  method GenerateRandomQRCode() returns (result: string)
    ensures IsGeneratedCode(result)
  {
    AlphabetIsCodeChars();
    result := "";
    for i := 0 to CodeLength
      invariant |result| == i
      invariant forall j :: 0 <= j < i ==> IsCodeChar(result[j])
    {
      var k :| 0 <= k < |Alphabet|;
      result := result + [Alphabet[k]];
    }
  }

  // ---------------------------------------------------------------- the code list

  /** `lines.map(code => code.trim()).filter(code => code.length > 0)`, in one pass. */
  function KeepCodes(lines: seq<string>): (codes: seq<string>)
    ensures |codes| <= |lines|
    ensures forall i :: 0 <= i < |codes| ==> codes[i] != []
  {
    if lines == [] then []
    else
      var code := Trim(lines[0]);
      (if code != [] then [code] else []) + KeepCodes(lines[1..])
  }

  /** The codes the text area holds: `split('\n')`, each line trimmed, empty lines dropped. */
  function ParseCodes(text: string): (codes: seq<string>)
    ensures forall i :: 0 <= i < |codes| ==> codes[i] != []
  {
    KeepCodes(Split(text, '\n'))
  }

  /** Trimming cuts characters off, so it adds none. */
  lemma TrimKeepsOut(s: string, c: char)
    requires c !in s
    ensures c !in Trim(s)
  {
    TrimSlice(s);
    var a, b :| 0 <= a <= b <= |s| && Trim(s) == s[a..b];
    forall j | 0 <= j < b - a ensures Trim(s)[j] != c {
      assert Trim(s)[j] == s[a + j];
    }
  }

  lemma {:induction false} KeepCodesClean(lines: seq<string>)
    requires forall k :: 0 <= k < |lines| ==> '\n' !in lines[k]
    ensures forall code :: code in KeepCodes(lines) ==>
      !IsWhitespace(code[0]) && !IsWhitespace(code[|code| - 1]) && '\n' !in code
    decreases |lines|
  {
    if lines != [] {
      KeepCodesClean(lines[1..]);
      TrimKeepsOut(lines[0], '\n');
    }
  }

  /** Every parsed code is non-empty, begins and ends with a character other than white space, and spans no line break. */
  lemma ParsedCodesTrimmed(text: string)
    ensures forall code :: code in ParseCodes(text) ==>
      && code != []
      && !IsWhitespace(code[0]) && !IsWhitespace(code[|code| - 1])
      && '\n' !in code
  {
    KeepCodesClean(Split(text, '\n'));
  }

  lemma {:induction false} KeepCodesAppend(a: seq<string>, b: seq<string>)
    ensures KeepCodes(a + b) == KeepCodes(a) + KeepCodes(b)
    decreases |a|
  {
    if a == [] {
      assert a + b == b;
    } else {
      assert (a + b)[1..] == a[1..] + b;
      KeepCodesAppend(a[1..], b);
    }
  }

  /** The empty text is one empty line, and an empty line holds no code. */
  lemma EmptyLineNoCode()
    ensures Split("", '\n') == [""]
    ensures KeepCodes([""]) == []
    ensures ParseCodes("") == []
  {
    var blank: seq<string> := [""];
    assert blank[1..] == [];
  }

  /** An empty line contributes no code. */
  lemma DropEmptyLine(rest: seq<string>)
    ensures KeepCodes([""] + rest) == KeepCodes(rest)
  {
    KeepCodesAppend([""], rest);
    EmptyLineNoCode();
  }

  /** White space in front of the text changes no parsed code. */
  lemma ParseConsWhitespace(c: char, s: string)
    requires IsWhitespace(c)
    ensures ParseCodes([c] + s) == ParseCodes(s)
  {
    var p := Split(s, '\n');
    if c == '\n' {
      SplitAround([], s, '\n');
      assert [] + ['\n'] + s == [c] + s;
      EmptyLineNoCode();
      DropEmptyLine(p);
    } else {
      SplitCons(c, s, '\n');
      TrimConsWhitespace(c, p[0]);
      assert p == [p[0]] + p[1..];
      assert ([[c] + p[0]] + p[1..])[1..] == p[1..];
    }
  }

  /** White space after the text changes no parsed code. */
  lemma ParseSnocWhitespace(s: string, c: char)
    requires IsWhitespace(c)
    ensures ParseCodes(s + [c]) == ParseCodes(s)
  {
    var p := Split(s, '\n');
    if c == '\n' {
      SplitAround(s, [], '\n');
      assert s + ['\n'] + [] == s + [c];
      EmptyLineNoCode();
      KeepCodesAppend(p, [""]);
    } else {
      var n := |p| - 1;
      assert p == p[..n] + [p[n]];
      SplitSnoc(s, c, '\n');
      TrimSnocWhitespace(p[n], c);
      KeepCodesAppend(p[..n], [p[n]]);
      KeepCodesAppend(p[..n], [p[n] + [c]]);
      assert [p[n]][1..] == [] && [p[n] + [c]][1..] == [];
    }
  }

  lemma {:induction false} ParseWhitespacePrefix(w: string, s: string)
    requires AllWhitespace(w)
    ensures ParseCodes(w + s) == ParseCodes(s)
    decreases |w|
  {
    if w == [] {
      assert w + s == s;
    } else {
      assert w + s == [w[0]] + (w[1..] + s);
      AllWhitespaceCons(w);
      ParseWhitespacePrefix(w[1..], s);
      ParseConsWhitespace(w[0], w[1..] + s);
    }
  }

  lemma {:induction false} ParseWhitespaceSuffix(s: string, w: string)
    requires AllWhitespace(w)
    ensures ParseCodes(s + w) == ParseCodes(s)
    decreases |w|
  {
    if w == [] {
      assert s + w == s;
    } else {
      var n := |w| - 1;
      assert s + w == (s + w[..n]) + [w[n]];
      AllWhitespaceSnoc(w);
      ParseWhitespaceSuffix(s, w[..n]);
      ParseSnocWhitespace(s + w[..n], w[n]);
    }
  }

  lemma SliceParts(s: string, a: nat, b: nat)
    requires a <= b <= |s|
    ensures s[..a] + (s[a..b] + s[b..]) == s
  {
    assert s[a..b] + s[b..] == s[a..];
  }

  /** Trimming the whole text first, as auto-generate does, changes no parsed code. */
  lemma ParseTrim(text: string)
    ensures ParseCodes(Trim(text)) == ParseCodes(text)
  {
    TrimSlice(text);
    var a, b :| 0 <= a <= b <= |text| && Trim(text) == text[a..b] && AllWhitespace(text[..a]) && AllWhitespace(text[b..]);
    var pre, mid, post := text[..a], text[a..b], text[b..];
    SliceParts(text, a, b);
    ParseWhitespacePrefix(pre, mid + post);
    ParseWhitespaceSuffix(mid, post);
  }

  /** The text holds no code exactly when it is blank. */
  lemma ParseEmptyIffBlank(text: string)
    ensures ParseCodes(text) == [] <==> AllWhitespace(text)
  {
    ParseTrim(text);
    TrimBlank(text);
    var t := Trim(text);
    if t == [] {
      EmptyLineNoCode();
    } else {
      var p := Split(t[1..], '\n');
      assert t == [t[0]] + t[1..];
      SplitCons(t[0], t[1..], '\n');
      var first := [t[0]] + p[0];
      TrimBlank(first);
      assert !AllWhitespace(first) by { assert first[0] == t[0]; }
    }
  }

  /** Lines that are already codes are kept as they are. */
  lemma {:induction false} KeepCodesOfCodes(codes: seq<string>)
    requires forall i :: 0 <= i < |codes| ==> codes[i] != [] && Trim(codes[i]) == codes[i]
    ensures KeepCodes(codes) == codes
    decreases |codes|
  {
    if codes != [] {
      KeepCodesOfCodes(codes[1..]);
    }
  }

  /** A generated code is a line of its own that `trim()` leaves alone. */
  lemma GeneratedCodeIsLine(code: string)
    requires IsGeneratedCode(code)
    ensures code != [] && '\n' !in code && Trim(code) == code
  {
    assert IsCodeChar(code[0]) && IsCodeChar(code[|code| - 1]);
    TrimTrimmed(code);
  }

  lemma GeneratedCodesAreLines(codes: seq<string>)
    requires forall i :: 0 <= i < |codes| ==> IsGeneratedCode(codes[i])
    ensures forall i :: 0 <= i < |codes| ==> codes[i] != [] && '\n' !in codes[i] && Trim(codes[i]) == codes[i]
  {
    forall i | 0 <= i < |codes| ensures codes[i] != [] && '\n' !in codes[i] && Trim(codes[i]) == codes[i] {
      GeneratedCodeIsLine(codes[i]);
    }
  }

  /** Generated codes written one per line parse back to themselves. */
  lemma ParseJoin(codes: seq<string>)
    requires codes != []
    requires forall i :: 0 <= i < |codes| ==> IsGeneratedCode(codes[i])
    ensures ParseCodes(Join(codes, "\n")) == codes
  {
    assert Split(Join(codes, "\n"), '\n') == codes by {
      GeneratedCodesAreLines(codes);
      SplitJoin(codes, '\n');
    }
    assert KeepCodes(codes) == codes by {
      GeneratedCodesAreLines(codes);
      KeepCodesOfCodes(codes);
    }
  }

  /** A line break and generated codes after a text add exactly those codes. */
  lemma ParseAppendLines(t: string, codes: seq<string>)
    requires codes != []
    requires forall i :: 0 <= i < |codes| ==> IsGeneratedCode(codes[i])
    ensures ParseCodes(t + "\n" + Join(codes, "\n")) == ParseCodes(t) + codes
  {
    var more := Join(codes, "\n");
    SplitAround(t, more, '\n');
    KeepCodesAppend(Split(t, '\n'), Split(more, '\n'));
    ParseJoin(codes);
  }

  // ---------------------------------------------------------------- the modal

  /** `Math.min(Math.max(1, autoGenCount), 10)`. */
  function ClampCount(autoGenCount: int): (count: int)
    ensures 1 <= count <= 10
    ensures 1 <= autoGenCount <= 10 ==> count == autoGenCount
    ensures autoGenCount < 1 ==> count == 1
    ensures autoGenCount > 10 ==> count == 10
  {
    if autoGenCount < 1 then 1 else if autoGenCount > 10 then 10 else autoGenCount
  }

  /**
   * `parseInt(value) || 1`. `parsed` is what `parseInt` made of the input,
   * `None` where it gave `NaN`; `NaN` and `0` are falsy and give way to 1.
   */
  function CountInput(parsed: Option<int>): (count: int)
    ensures count != 0
    ensures parsed.Some? && parsed.value != 0 ==> count == parsed.value
    ensures parsed.None? || parsed.value == 0 ==> count == 1
  {
    if parsed.None? || parsed.value == 0 then 1 else parsed.value
  }

  /** The new text area content: the old content trimmed, a line break only if it is not blank, then the new codes one per line. */
  function AutoGenerateText(qrCodes: string, newCodes: seq<string>): string {
    var currentCodes := Trim(qrCodes);
    var separator := if currentCodes != [] then "\n" else "";
    currentCodes + separator + Join(newCodes, "\n")
  }

  /** Auto-generating keeps every code already typed, in order, and adds exactly the new ones after them. */
  lemma AutoGenerateAppends(qrCodes: string, newCodes: seq<string>)
    requires newCodes != []
    requires forall i :: 0 <= i < |newCodes| ==> IsGeneratedCode(newCodes[i])
    ensures ParseCodes(AutoGenerateText(qrCodes, newCodes)) == ParseCodes(qrCodes) + newCodes
  {
    var currentCodes := Trim(qrCodes);
    ParseTrim(qrCodes);
    if currentCodes != [] {
      ParseAppendLines(currentCodes, newCodes);
    } else {
      assert AutoGenerateText(qrCodes, newCodes) == Join(newCodes, "\n");
      ParseJoin(newCodes);
      ParseEmptyIffBlank(currentCodes);
    }
  }

  /** After auto-generating the register button is enabled. */
  lemma AutoGenerateEnablesRegister(qrCodes: string, newCodes: seq<string>)
    requires newCodes != []
    requires forall i :: 0 <= i < |newCodes| ==> IsGeneratedCode(newCodes[i])
    ensures !RegisterDisabled(AutoGenerateText(qrCodes, newCodes))
  {
    AutoGenerateAppends(qrCodes, newCodes);
  }

  /** `disabled={qrCodeCount === 0}` on the register button. */
  predicate RegisterDisabled(qrCodes: string) {
    |ParseCodes(qrCodes)| == 0
  }

  /** The register button is disabled exactly while the text area is blank. */
  lemma RegisterDisabledIffBlank(qrCodes: string)
    ensures RegisterDisabled(qrCodes) <==> AllWhitespace(qrCodes)
  {
    ParseEmptyIffBlank(qrCodes);
  }

  /** The two alerts `handleSubmit` can show. */
  datatype SubmitAlert = NoCodes | Registered(count: nat)

  function AlertText(alert: SubmitAlert): string {
    match alert
    case NoCodes => "Please add at least one QR code"
    case Registered(count) => "Successfully registered " + NatToString(count) + " QR codes!"
  }

  /** The modal's state: the text area, the count input, and whether the parent shows the modal. */
  class RegisterModal {
    var qrCodes: string
    var autoGenCount: int
    var isModalOpen: bool

    /** A modal as the parent first renders it: empty text area, count 1. */
    constructor (isModalOpen: bool)
      ensures qrCodes == "" && autoGenCount == 1 && this.isModalOpen == isModalOpen
    {
      qrCodes := "";
      autoGenCount := 1;
      this.isModalOpen := isModalOpen;
    }

    /** The count input's `onChange`. */
    method SetAutoGenCount(parsed: Option<int>)
      modifies this
      ensures autoGenCount == CountInput(parsed)
      ensures qrCodes == old(qrCodes) && isModalOpen == old(isModalOpen)
    {
      autoGenCount := CountInput(parsed);
    }

    /**
     * `handleAutoGenerate`: generates the clamped number of codes and appends
     * them, one per line, to the trimmed text. `newCodes` are the codes added.
     */
    method HandleAutoGenerate() returns (newCodes: seq<string>)
      modifies this
      ensures |newCodes| == ClampCount(old(autoGenCount))
      ensures forall i :: 0 <= i < |newCodes| ==> IsGeneratedCode(newCodes[i])
      ensures qrCodes == AutoGenerateText(old(qrCodes), newCodes)
      ensures autoGenCount == old(autoGenCount) && isModalOpen == old(isModalOpen)
    {
      var count := ClampCount(autoGenCount);
      newCodes := [];
      for i := 0 to count
        invariant unchanged(this)
        invariant |newCodes| == i
        invariant forall k :: 0 <= k < i ==> IsGeneratedCode(newCodes[k])
      {
        var code := GenerateRandomQRCode();
        newCodes := newCodes + [code];
      }
      qrCodes := AutoGenerateText(qrCodes, newCodes);
    }

    /**
     * `handleSubmit`: with no code in the text area nothing changes and the
     * user is told to add one; otherwise the count is reported, the text
     * cleared and the modal closed. `alert` is the message shown.
     */
    method HandleSubmit() returns (alert: SubmitAlert)
      modifies this
      ensures old(ParseCodes(qrCodes)) == [] ==>
        alert == NoCodes && qrCodes == old(qrCodes) && isModalOpen == old(isModalOpen)
      ensures old(ParseCodes(qrCodes)) != [] ==>
        alert == Registered(|old(ParseCodes(qrCodes))|) && qrCodes == "" && !isModalOpen
      ensures autoGenCount == old(autoGenCount)
    {
      var codesArray := ParseCodes(qrCodes);
      if |codesArray| == 0 {
        alert := NoCodes;
        return;
      }
      alert := Registered(|codesArray|);
      qrCodes := "";
      isModalOpen := false;
    }

    /** `handleCancel`: clears the text and closes the modal. */
    method HandleCancel()
      modifies this
      ensures qrCodes == "" && !isModalOpen && autoGenCount == old(autoGenCount)
    {
      qrCodes := "";
      isModalOpen := false;
    }
  }
}
