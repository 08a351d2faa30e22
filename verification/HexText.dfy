/** `hex_dump` and `parse_hex_bytes` of src/main.cpp: a printer, a reader that accepts more than the printer writes, and
    what connects them. */
module HexText {
  import opened Bits
  import opened Sequences

  // ---------- The printer ----------

  function HexDigit(n: nat): char
    requires n < 16
  {
    "0123456789abcdef"[n]
  }

  function Hex2(b: uint8): string {
    [HexDigit(b / 16), HexDigit(b % 16)]
  }

  function Dump(bytes: seq<uint8>): string {
    if bytes == [] then ""
    else if |bytes| == 1 then Hex2(bytes[0])
    else Dump(bytes[..|bytes| - 1]) + " " + Hex2(bytes[|bytes| - 1])
  }

  method HexDump(bytes: seq<uint8>) returns (stream: string)
    ensures stream == Dump(bytes)
  {
    hide Hex2;
    stream := "";
    for index := 0 to |bytes|
      invariant stream == Dump(bytes[..index])
    {
      ghost var next := bytes[..index + 1];
      assert next[..index] == bytes[..index];
      if index != 0 {
        stream := stream + " ";
      }
      stream := stream + Hex2(bytes[index]);
    }
    assert bytes[..|bytes|] == bytes;
  }

  // ---------- Tokens ----------

  predicate IsSpace(c: char) {
    c == ' ' || c == '\t' || c == '\n' || c == '\r' || c == 11 as char || c == 12 as char
  }

  /** Finished tokens and the one being read. */
  datatype LexState = LexState(words: seq<string>, current: string)

  function Lex(text: string): LexState {
    if text == "" then LexState([], "")
    else
      var st, c := Lex(text[..|text| - 1]), text[|text| - 1];
      if !IsSpace(c) then LexState(st.words, st.current + [c])
      else LexState(Words(st), "")
  }

  function Words(st: LexState): seq<string> {
    if st.current == "" then st.words else st.words + [st.current]
  }

  /** The whitespace-separated tokens of a text. */
  function Tokens(text: string): seq<string> {
    Words(Lex(text))
  }

  // ---------- One token ----------

  function DigitValue(c: char): Option<nat> {
    if '0' <= c <= '9' then Some((c - '0') as nat)
    else if 'a' <= c <= 'f' then Some((c - 'a') as nat + 10)
    else if 'A' <= c <= 'F' then Some((c - 'A') as nat + 10)
    else None
  }

  /** The longest run of hexadecimal digits at the start. */
  function DigitRun(s: string): nat
    ensures DigitRun(s) <= |s|
  {
    if s == "" || DigitValue(s[0]).None? then 0 else 1 + DigitRun(s[1..])
  }

  function HexValue(s: string): nat {
    if s == "" then 0 else 16 * HexValue(s[..|s| - 1]) + DigitValue(s[|s| - 1]).GetOr(0)
  }

  const ULONG: nat := 0x1_0000_0000_0000_0000

  /** In front of `text`, 0x is taken for a prefix. */
  predicate IsPrefixed(text: string) {
    |text| >= 3 && text[0] == '0' && (text[1] == 'x' || text[1] == 'X') && DigitValue(text[2]).Some?
  }

  /** An optional 0x before a digit and the longest digit run; trailing text is ignored. None without a digit, or for a
      number that does not fit 64 bits. */
  function Unsigned16(text: string): Option<nat> {
    var digits := if IsPrefixed(text) then text[2..] else text;
    var value := HexValue(digits[..DigitRun(digits)]);
    if DigitRun(digits) == 0 || value >= ULONG then None else Some(value)
  }

  /** stoul in base 16: an optional sign; a negative number wraps around. None where it throws. */
  function Stoul16(token: string): Option<nat> {
    var signed := token != "" && (token[0] == '-' || token[0] == '+');
    match Unsigned16(if signed then token[1..] else token)
    case Some(value) => Some(if signed && token[0] == '-' then (ULONG - value) % ULONG else value)
    case None => None
  }

  function ByteOf(token: string): Option<uint8> {
    match Stoul16(token)
    case Some(v) => if v > 0xFF then None else Some(v)
    case None => None
  }

  // ---------- The reader ----------

  ghost predicate AllBytes(tokens: seq<string>) {
    forall t | t in tokens :: ByteOf(t).Some?
  }

  /** The values of the tokens; a bad token counts as 0 here. */
  function Values(tokens: seq<string>): (r: seq<uint8>)
    ensures |r| == |tokens|
  {
    seq(|tokens|, i requires 0 <= i < |tokens| => ByteOf(tokens[i]).GetOr(0))
  }

  /** Accepted exactly if there is a token and every token is a byte; then one byte per token, in order. */
  method ParseHexBytes(text: string) returns (bytes: Option<seq<uint8>>)
    ensures bytes.Some? <==> Tokens(text) != [] && AllBytes(Tokens(text))
    ensures bytes.Some? ==> bytes.value == Values(Tokens(text))
  {
    hide ByteOf, Lex, IsSpace;
    var result: seq<uint8> := [];
    ghost var seen: seq<string> := [];
    var pos := 0;
    LexOfNothing(text);
    while true
      invariant pos <= |text| && Tokens(text[..pos]) == seen && AllBytes(seen) && result == Values(seen)
      invariant pos == |text| || IsSpace(text[pos]) || Lex(text[..pos]).current == ""
      decreases |text| - pos
    {
      while pos < |text| && IsSpace(text[pos])
        invariant pos <= |text| && Tokens(text[..pos]) == seen
        invariant pos == |text| || IsSpace(text[pos]) || Lex(text[..pos]).current == ""
      {
        LexSpace(text, pos);
        pos := pos + 1;
      }
      if pos == |text| {
        break;
      }
      var token := "";
      ghost var start := pos;
      while pos < |text| && !IsSpace(text[pos])
        invariant start <= pos <= |text| && Lex(text[..pos]) == LexState(seen, token) && |token| == pos - start
      {
        LexLetter(text, pos);
        token := token + [text[pos]];
        pos := pos + 1;
      }
      seen := seen + [token];
      PrefixTokens(text, pos);
      var value := ByteOf(token);
      if value.None? {
        assert seen[|seen| - 1] == token && Tokens(text)[|seen| - 1] == token;
        return None;
      }
      result := result + [value.value];
    }
    assert text[..pos] == text;
    if |result| == 0 {
      return None;
    }
    bytes := Some(result);
  }

  lemma LexOfNothing(text: string)
    ensures Lex(text[..0]) == LexState([], "") && Tokens(text[..0]) == []
  {
  }

  lemma LexSpace(text: string, pos: nat)
    requires pos < |text| && IsSpace(text[pos])
    ensures Lex(text[..pos + 1]) == LexState(Tokens(text[..pos]), "") && Tokens(text[..pos + 1]) == Tokens(text[..pos])
  {
    assert text[..pos + 1][..pos] == text[..pos];
  }

  lemma LexLetter(text: string, pos: nat)
    requires pos < |text| && !IsSpace(text[pos])
    ensures Lex(text[..pos + 1]) == LexState(Lex(text[..pos]).words, Lex(text[..pos]).current + [text[pos]])
  {
    assert text[..pos + 1][..pos] == text[..pos];
  }

  /** Tokens read up to a boundary are the first tokens of the text. */
  lemma {:induction false} PrefixTokens(text: string, pos: nat)
    requires pos <= |text| && (pos == |text| || IsSpace(text[pos]))
    ensures Tokens(text[..pos]) <= Tokens(text)
  {
    hide Lex, IsSpace;
    if pos == |text| {
      assert text[..pos] == text;
    } else {
      LexSpace(text, pos);
      FinishedStay(text, pos + 1, |text|);
      assert text[..|text|] == text;
    }
  }

  lemma {:induction false} FinishedStay(text: string, pos: nat, end: nat)
    requires pos <= end <= |text|
    ensures Lex(text[..pos]).words <= Lex(text[..end]).words
    decreases end
  {
    hide Lex, IsSpace;
    if pos < end {
      FinishedStay(text, pos, end - 1);
      if IsSpace(text[end - 1]) {
        LexSpace(text, end - 1);
      } else {
        LexLetter(text, end - 1);
      }
    }
  }

  // ---------- Printing and reading back ----------

  lemma HexDigitIsDigit(n: nat)
    requires n < 16
    ensures !IsSpace(HexDigit(n)) && DigitValue(HexDigit(n)) == Some(n) && HexDigit(n) !in "-+xX"
  {
    if n < 10 {
      assert HexDigit(n) == '0' + n as char;
    } else {
      assert HexDigit(n) == 'a' + (n - 10) as char;
    }
  }

  lemma ReadHex2(b: uint8)
    ensures ByteOf(Hex2(b)) == Some(b)
  {
    hide HexDigit, DigitValue;
    HexDigitIsDigit(b / 16);
    HexDigitIsDigit(b % 16);
    var s := Hex2(b);
    assert DigitRun(s[2..]) == 0;
    assert s[1..][1..] == s[2..];
    assert DigitRun(s[1..]) == 1;
    assert DigitRun(s) == 2 && s[..2] == s;
    assert s[..1][..0] == "" && HexValue(s[..1]) == b / 16;
    assert HexValue(s) == 16 * HexValue(s[..1]) + b % 16;
  }

  lemma LexHex2(before: string, b: uint8)
    requires Lex(before).current == ""
    ensures Lex(before + Hex2(b)) == LexState(Lex(before).words, Hex2(b))
  {
    hide HexDigit, IsSpace, Lex;
    HexDigitIsDigit(b / 16);
    HexDigitIsDigit(b % 16);
    var text, n := before + Hex2(b), |before|;
    assert text[..n] == before && text[..n + 2] == text;
    LexLetter(text, n);
    LexLetter(text, n + 1);
  }

  function Pairs(bytes: seq<uint8>): seq<string> {
    seq(|bytes|, i requires 0 <= i < |bytes| => Hex2(bytes[i]))
  }

  lemma {:induction false} TokensOfDump(bytes: seq<uint8>)
    requires bytes != []
    ensures Lex(Dump(bytes)) == LexState(Pairs(bytes[..|bytes| - 1]), Hex2(bytes[|bytes| - 1]))
    ensures Tokens(Dump(bytes)) == Pairs(bytes)
  {
    hide Lex, Hex2, IsSpace;
    var n := |bytes|;
    var last := bytes[n - 1];
    if n == 1 {
      LexOfNothing("");
      LexHex2("", last);
      assert "" + Hex2(last) == Dump(bytes);
    } else {
      var init := bytes[..n - 1];
      TokensOfDump(init);
      var before := Dump(init) + " ";
      LexOneSpace(Dump(init));
      LexHex2(before, last);
      assert before + Hex2(last) == Dump(bytes);
    }
    NonEmptyHex2(last);
    assert Pairs(bytes) == Pairs(bytes[..n - 1]) + [Hex2(last)];
  }

  lemma LexOneSpace(text: string)
    ensures Lex(text + " ") == LexState(Tokens(text), "")
  {
    assert (text + " ")[..|text|] == text;
  }

  lemma NonEmptyHex2(b: uint8)
    ensures Hex2(b) != ""
  {
  }

  /** Reading back what was printed gives the same bytes, for every byte string; the empty one is refused by the
      reader. */
  lemma PrintThenRead(bytes: seq<uint8>)
    ensures Tokens(Dump(bytes)) != [] <==> bytes != []
    ensures AllBytes(Tokens(Dump(bytes))) && Values(Tokens(Dump(bytes))) == bytes
  {
    hide ByteOf, Hex2, Lex, Dump;
    if bytes == [] {
      DumpOfNothing();
    } else {
      TokensOfDump(bytes);
      forall i | 0 <= i < |bytes|
        ensures ByteOf(Pairs(bytes)[i]) == Some(bytes[i])
      {
        ReadHex2(bytes[i]);
      }
    }
  }

  lemma DumpOfNothing()
    ensures Dump([]) == "" && Tokens("") == []
  {
  }

  /** So printing never confuses two byte strings. */
  lemma DumpIsInjective(a: seq<uint8>, b: seq<uint8>)
    requires Dump(a) == Dump(b)
    ensures a == b
  {
    PrintThenRead(a);
    PrintThenRead(b);
  }

  // ---------- The text, character by character ----------

  /** The dump: for every byte two lower-case digits, the high one first, and single spaces between. */
  lemma {:induction false} DumpText(bytes: seq<uint8>)
    ensures |Dump(bytes)| == if bytes == [] then 0 else 3 * |bytes| - 1
    ensures forall i {:trigger bytes[i]} | 0 <= i < |bytes| ::
              && Dump(bytes)[3 * i] == "0123456789abcdef"[bytes[i] / 16]
              && Dump(bytes)[3 * i + 1] == "0123456789abcdef"[bytes[i] % 16]
              && (i < |bytes| - 1 ==> Dump(bytes)[3 * i + 2] == ' ')
  {
    if |bytes| > 1 {
      var n := |bytes| - 1;
      var init, text := bytes[..n], Dump(bytes);
      DumpText(init);
      var before := Dump(init);
      assert text == before + " " + Hex2(bytes[n]) && |before| == 3 * n - 1;
      hide Dump;
      forall i | 0 <= i < |bytes|
        ensures text[3 * i] == "0123456789abcdef"[bytes[i] / 16] && text[3 * i + 1] == "0123456789abcdef"[bytes[i] % 16]
        ensures i < n ==> text[3 * i + 2] == ' '
      {
        if i < n {
          assert init[i] == bytes[i] && text[3 * i] == before[3 * i] && text[3 * i + 1] == before[3 * i + 1];
          assert i < n - 1 ==> text[3 * i + 2] == before[3 * i + 2];
        }
      }
    }
  }

  /** The digits, in either case; nothing else is one. */
  lemma DigitValues(n: nat, c: char)
    requires n < 16
    ensures DigitValue("0123456789abcdef"[n]) == Some(n) && DigitValue("0123456789ABCDEF"[n]) == Some(n)
    ensures c !in "0123456789abcdef" && c !in "0123456789ABCDEF" ==> DigitValue(c).None?
  {
    HexDigitIsDigit(n);
    UpperDigit(n);
    NoDigit(c);
    hide DigitValue;
  }

  lemma UpperDigit(n: nat)
    requires n < 16
    ensures DigitValue("0123456789ABCDEF"[n]) == Some(n)
  {
    if n < 10 {
      assert "0123456789ABCDEF"[n] == '0' + n as char;
    } else {
      assert "0123456789ABCDEF"[n] == 'A' + (n - 10) as char;
    }
  }

  lemma NoDigit(c: char)
    ensures DigitValue(c).Some? ==> c in "0123456789abcdef" || c in "0123456789ABCDEF"
  {
    var lower, upper := "0123456789abcdef", "0123456789ABCDEF";
    if '0' <= c <= '9' {
      assert lower[(c - '0') as nat] == c;
    } else if 'a' <= c <= 'f' {
      assert lower[(c - 'a') as nat + 10] == c;
    } else if 'A' <= c <= 'F' {
      assert upper[(c - 'A') as nat + 10] == c;
    }
  }

  predicate AllDigits(s: string) {
    forall c | c in s :: DigitValue(c).Some?
  }

  lemma {:induction false} RunOfDigits(digits: string, rest: string)
    requires AllDigits(digits) && (rest == "" || DigitValue(rest[0]).None?)
    ensures DigitRun(digits + rest) == |digits| && (digits + rest)[..|digits|] == digits
  {
    hide DigitValue;
    if digits == "" {
      assert digits + rest == rest;
    } else {
      assert (digits + rest)[1..] == digits[1..] + rest;
      RunOfDigits(digits[1..], rest);
    }
  }

  lemma NotPrefixed(digits: string, rest: string)
    requires digits != "" && AllDigits(digits)
    requires !(digits == "0" && |rest| >= 2 && rest[0] in "xX" && DigitValue(rest[1]).Some?)
    ensures !IsPrefixed(digits + rest) && digits[0] !in "+-"
  {
    hide DigitValue;
    NoSignIsDigit();
    assert digits[0] in digits;
    var text := digits + rest;
    if |digits| > 1 {
      assert digits[1] in digits && text[1] == digits[1];
    } else if |text| >= 3 {
      assert digits == [digits[0]] && text[1] == rest[0] && text[2] == rest[1];
    }
  }

  lemma UnsignedIs(text: string, digits: string, rest: string)
    requires digits != "" && AllDigits(digits) && (rest == "" || DigitValue(rest[0]).None?)
    requires digits + rest == if IsPrefixed(text) then text[2..] else text
    ensures Unsigned16(text) == if HexValue(digits) < 0x1_0000_0000_0000_0000 then Some(HexValue(digits)) else None
  {
    RunOfDigits(digits, rest);
    hide HexValue, DigitRun, DigitValue, IsPrefixed, AllDigits;
  }

  lemma UnsignedMeaning(digits: string, rest: string, prefix: string)
    requires digits != "" && AllDigits(digits) && (rest == "" || DigitValue(rest[0]).None?)
    requires prefix in {"", "0x", "0X"}
    requires prefix == "" ==> !(digits == "0" && |rest| >= 2 && rest[0] in "xX" && DigitValue(rest[1]).Some?)
    ensures var token, value := prefix + digits + rest, HexValue(digits);
            && token != "" && token[0] !in "+-"
            && Unsigned16(token) == if value < 0x1_0000_0000_0000_0000 then Some(value) else None
  {
    hide HexValue, DigitRun, DigitValue, Unsigned16;
    var token := prefix + digits + rest;
    if prefix != "" {
      assert digits[0] in digits && token[2] == digits[0] && token[2..] == digits + rest;
    } else {
      assert token == digits + rest;
      NotPrefixed(digits, rest);
    }
    hide AllDigits;
    UnsignedIs(token, digits, rest);
  }

  /** What a token means: an optional plus sign and an optional 0x or 0X in front of its digits, and anything behind
      them, make no difference (a lone 0 before x and a digit is such a prefix); it is a byte exactly if the digits are
      at most 255. A minus sign wraps around at 2^64, so it is accepted for 0 and for the 255 largest values only. */
  lemma TokenMeaning(digits: string, rest: string, prefix: string)
    requires digits != "" && AllDigits(digits) && (rest == "" || DigitValue(rest[0]).None?)
    requires prefix in {"", "0x", "0X"}
    requires prefix == "" ==> !(digits == "0" && |rest| >= 2 && rest[0] in "xX" && DigitValue(rest[1]).Some?)
    ensures var token, value := prefix + digits + rest, HexValue(digits);
            && ByteOf(token) == ByteOf("+" + token) == (if value <= 255 then Some(value) else None)
            && ByteOf("-" + token) == (if value == 0 then Some(0)
                                       else if 0xFFFF_FFFF_FFFF_FF01 <= value <= 0xFFFF_FFFF_FFFF_FFFF
                                       then Some(0x1_0000_0000_0000_0000 - value) else None)
  {
    hide DigitValue, HexValue, DigitRun, Unsigned16, AllDigits;
    UnsignedMeaning(digits, rest, prefix);
    var token := prefix + digits + rest;
    assert ("+" + token)[1..] == token && ("-" + token)[1..] == token;
  }

  lemma NoSignIsDigit()
    ensures forall c | c in "+-xX" :: DigitValue(c).None?
    ensures DigitValue('0') == Some(0)
  {
  }

  /** A word behind any of the six whitespace characters is one more token. */
  lemma OneMoreToken(text: string, space: char, word: string)
    requires space in " \t\n\r" || space as int == 11 || space as int == 12
    requires word != "" && forall c | c in word :: c !in " \t\n\r" && c as int != 11 && c as int != 12
    ensures Tokens(text + [space] + word) == Tokens(text) + [word]
  {
    hide Lex;
    var before := text + [space];
    assert before[..|text|] == text;
    LexSpace(before, |text|);
    assert before[..|text| + 1] == before;
    LexWord(before, word, |word|);
    assert word[..|word|] == word;
  }

  lemma {:induction false} LexWord(before: string, word: string, n: nat)
    requires Lex(before).current == "" && n <= |word| && forall c | c in word :: !IsSpace(c)
    ensures Lex(before + word[..n]) == LexState(Lex(before).words, word[..n])
  {
    hide Lex, IsSpace;
    if n == 0 {
      assert before + word[..0] == before;
    } else {
      LexWord(before, word, n - 1);
      var text := before + word[..n];
      assert text[..|text| - 1] == before + word[..n - 1] && text[|text| - 1] == word[n - 1];
      LexLetter(text, |text| - 1);
      assert text[..|text|] == text;
    }
  }
}
