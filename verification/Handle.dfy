/** Wire handles (crates/daemonseed-core/src/handle.rs): a name, `#`, and twelve hex digits of the key's hash. */
module Handle {
  import opened Wrappers
  import opened Bytes

  const HASH_PREFIX_BYTES := 6
  const HASH_PREFIX_HEX_CHARS: nat := 12

  type Prefix = s: seq<Byte> | |s| == HASH_PREFIX_BYTES witness seq(HASH_PREFIX_BYTES, _ => 0)

  datatype Handle = Handle(displayName: Option<string>, hashPrefix: Prefix)

  datatype HandleParseError =
    | MissingHashSeparator
    | InvalidHashLength(found: nat, expected: nat)
    | InvalidHashHex
    | DisplayNameHasHash
    | DisplayNameHasUnsafeChar

  /** Control characters and bidirectional formatting characters may not stand in a display name. */
  predicate IsUnsafeDisplayNameChar(c: char) {
    var u := c as int;
    || u <= 0x1F || 0x7F <= u <= 0x9F
    || u == 0x061C || u == 0x200E || u == 0x200F || 0x202A <= u <= 0x202E || 0x2066 <= u <= 0x2069
  }

  // ---------------------------------------------------------------------------------------------
  // Hex text
  // ---------------------------------------------------------------------------------------------

  function Digit(n: Nibble): (c: char)
    ensures IsHexDigit(c) && Lower(c) == c
  {
    if n < 10 then '0' + n as char else 'a' + (n - 10) as char
  }

  predicate IsHexDigit(c: char) {
    '0' <= c <= '9' || 'a' <= c <= 'f' || 'A' <= c <= 'F'
  }

  function DigitValue(c: char): Nibble
    requires IsHexDigit(c)
  {
    if '0' <= c <= '9' then c as int - '0' as int
    else if 'a' <= c <= 'f' then c as int - 'a' as int + 10
    else c as int - 'A' as int + 10
  }

  function Lower(c: char): char {
    if 'A' <= c <= 'F' then c - 'A' + 'a' else c
  }

  function LowerAll(s: string): (t: string)
    ensures |t| == |s|
  {
    seq(|s|, i requires 0 <= i < |s| => Lower(s[i]))
  }

  function HexText(s: seq<Byte>): (t: string)
    ensures |t| == 2 * |s| && forall i :: 0 <= i < |t| ==> IsHexDigit(t[i])
  {
    if s == [] then [] else [Digit(s[0] / 16), Digit(s[0] % 16)] + HexText(s[1..])
  }

  /** Byte i is written as the digit of its high half and then the digit of its low half. */
  lemma {:induction false} HexTextAt(s: seq<Byte>, i: nat)
    requires i < |s|
    ensures HexText(s)[2 * i] == HEX_DIGITS[s[i] / 16] && HexText(s)[2 * i + 1] == HEX_DIGITS[s[i] % 16]
    decreases |s|
  {
    DigitIsListed(s[0] / 16);
    DigitIsListed(s[0] % 16);
    hide Digit;
    if i > 0 {
      HexTextAt(s[1..], i - 1);
      var rest := HexText(s)[2..];
      assert rest == HexText(s[1..]);
      assert HexText(s)[2 * i] == rest[2 * (i - 1)] && HexText(s)[2 * i + 1] == rest[2 * (i - 1) + 1];
    }
  }

  lemma DigitIsListed(n: Nibble)
    ensures Digit(n) == HEX_DIGITS[n]
  {
  }

  predicate AllHex(s: string) {
    forall i :: 0 <= i < |s| ==> IsHexDigit(s[i])
  }

  /** The bytes an even number of hex digits spell, in either case. */
  function FromHex(s: string): (b: seq<Byte>)
    requires AllHex(s) && |s| % 2 == 0
    ensures |b| == |s| / 2
  {
    if s == [] then [] else [16 * DigitValue(s[0]) + DigitValue(s[1])] + FromHex(s[2..])
  }

  lemma {:induction false} FromHexText(s: seq<Byte>)
    ensures FromHex(HexText(s)) == s
  {
    if s != [] {
      FromHexText(s[1..]);
      assert HexText(s)[2..] == HexText(s[1..]);
    }
  }

  lemma {:induction false} HexTextFromHex(s: string)
    requires AllHex(s) && |s| % 2 == 0
    ensures HexText(FromHex(s)) == LowerAll(s)
    decreases |s|
  {
    if s != [] {
      HexTextFromHex(s[2..]);
      var b := FromHex(s);
      DigitOfValue(s[0]);
      DigitOfValue(s[1]);
      hide DigitValue, Digit, Lower;
      assert b[0] / 16 == DigitValue(s[0]) && b[0] % 16 == DigitValue(s[1]);
      assert b[1..] == FromHex(s[2..]);
      assert HexText(b) == [Lower(s[0]), Lower(s[1])] + LowerAll(s[2..]);
      assert LowerAll(s) == [Lower(s[0]), Lower(s[1])] + LowerAll(s[2..]);
    }
  }

  lemma DigitOfValue(c: char)
    requires IsHexDigit(c)
    ensures Digit(DigitValue(c)) == Lower(c)
  {
  }

  // ---------------------------------------------------------------------------------------------
  // Print, parse, bind
  // ---------------------------------------------------------------------------------------------

  function Print(h: Handle): string {
    (if h.displayName.Some? then h.displayName.value else "") + "#" + HexText(h.hashPrefix)
  }

  /** The last position of `c`. */
  function RFind(s: string, c: char): (at: Option<nat>)
    ensures at.Some? ==> at.value < |s| && s[at.value] == c && c !in s[at.value + 1..]
    ensures at == None ==> c !in s
  {
    if s == [] then None
    else if s[|s| - 1] == c then Some(|s| - 1)
    else
      assert s == s[..|s| - 1] + [s[|s| - 1]];
      RFind(s[..|s| - 1], c)
  }

  function Parse(s: string): Result<Handle, HandleParseError> {
    var at := RFind(s, '#');
    if at == None then Err(MissingHashSeparator)
    else
      var name, hex := s[..at.value], s[at.value + 1..];
      if |hex| != HASH_PREFIX_HEX_CHARS then Err(InvalidHashLength(|hex|, HASH_PREFIX_HEX_CHARS))
      else if !AllHex(hex) then Err(InvalidHashHex)
      else if '#' in name then Err(DisplayNameHasHash)
      else if exists c | c in name :: IsUnsafeDisplayNameChar(c) then Err(DisplayNameHasUnsafeChar)
      else Ok(Handle(if name == "" then None else Some(name), FromHex(hex)))
  }

  /** The handle safe to display for a transmitted one: its name counts only under the key's own prefix. */
  function DisplayBound(sha384: seq<Byte> -> Digest, transmitted: string, pubkey: seq<Byte>): Handle {
    var authoritative := Handle(None, sha384(pubkey)[..HASH_PREFIX_BYTES]);
    match Parse(transmitted)
    case Ok(claimed) =>
      if claimed.hashPrefix == authoritative.hashPrefix then authoritative.(displayName := claimed.displayName)
      else authoritative
    case Err(_) => authoritative
  }

  /** A name the parser can give back: absent, or non-empty, without `#` and without unsafe characters. */
  ghost predicate Printable(name: Option<string>) {
    name.Some? ==> name.value != "" && NameChars(name.value)
  }

  ghost predicate NameChars(name: string) {
    '#' !in name && forall c :: c in name ==> !IsUnsafeDisplayNameChar(c)
  }

  /** The characters a name may hold, range by range. */
  lemma NameAlphabet(name: string)
    ensures NameChars(name) <==> forall i :: 0 <= i < |name| ==> var u := name[i] as int;
              || 0x20 <= u <= 0x22 || 0x24 <= u <= 0x7E || 0xA0 <= u <= 0x61B || 0x61D <= u <= 0x200D
              || 0x2010 <= u <= 0x2029 || 0x202F <= u <= 0x2065 || 0x206A <= u
  {
    assert forall i :: 0 <= i < |name| ==> name[i] in name;
  }

  lemma LastIsUnique(s: string, c: char, k: nat)
    requires k < |s| && s[k] == c && c !in s[k + 1..]
    ensures RFind(s, c) == Some(k)
  {
  }

  lemma SplitAtHash(name: string, hex: string)
    requires '#' !in hex
    ensures RFind(name + "#" + hex, '#') == Some(|name|)
    ensures (name + "#" + hex)[..|name|] == name && (name + "#" + hex)[|name| + 1..] == hex
  {
    hide RFind;
    var s := name + "#" + hex;
    assert s[|name|] == '#' && s[|name| + 1..] == hex && s[..|name|] == name;
    LastIsUnique(s, '#', |name|);
  }

  /**
   The parser accepts exactly the strings `name#hhhhhhhhhhhh` with an acceptable name and splits them
   there; what it says of any other string is the first of its complaints that applies.
   */
  lemma ParseClassifies(s: string, name: string, hex: string)
    requires s == name + "#" + hex && '#' !in hex
    ensures Parse(s).Ok? <==> |hex| == 12 && AllHex(hex) && NameChars(name)
    ensures Parse(s).Ok? ==> Parse(s).value == Handle(if name == "" then None else Some(name), FromHex(hex))
    ensures Parse(s) == Err(InvalidHashLength(|hex|, 12)) <==> |hex| != 12
    ensures Parse(s) == Err(InvalidHashHex) <==> |hex| == 12 && !AllHex(hex)
    ensures Parse(s) == Err(DisplayNameHasHash) <==> |hex| == 12 && AllHex(hex) && '#' in name
    ensures Parse(s) == Err(DisplayNameHasUnsafeChar)
       <==> |hex| == 12 && AllHex(hex) && '#' !in name && !NameChars(name)
    ensures Parse(s) != Err(MissingHashSeparator)
  {
    SplitAtHash(name, hex);
  }

  /** What is accepted has that form. */
  lemma ParsedForm(s: string)
    requires Parse(s).Ok?
    ensures |s| >= 13 && s[|s| - 13] == '#' && AllHex(s[|s| - 12..]) && NameChars(s[..|s| - 13])
    ensures s == s[..|s| - 13] + "#" + s[|s| - 12..] && '#' !in s[|s| - 12..]
    ensures Printable(Parse(s).value.displayName)
  {
  }

  /** Parsing a printed handle gives it back exactly when its name is one the parser can give back. */
  lemma PrintThenParse(h: Handle)
    ensures Parse(Print(h)) == Ok(h) <==> Printable(h.displayName)
  {
    var name, hex := if h.displayName.Some? then h.displayName.value else "", HexText(h.hashPrefix);
    ParseClassifies(Print(h), name, hex);
    FromHexText(h.hashPrefix);
    if Parse(Print(h)) == Ok(h) {
      ParsedForm(Print(h));
    }
  }

  /** Printing a parsed handle gives the text back with its hex digits in lower case. */
  lemma ParseThenPrint(s: string)
    requires Parse(s).Ok?
    ensures |s| >= 12 && Print(Parse(s).value) == s[..|s| - 12] + LowerAll(s[|s| - 12..])
  {
    ParsedForm(s);
    var name, hex := s[..|s| - 13], s[|s| - 12..];
    ParseClassifies(s, name, hex);
    HexTextFromHex(hex);
    assert s[..|s| - 12] == name + "#";
  }

  /**
   The bound handle always carries the prefix derived from the key, and shows a name exactly when the
   transmitted text parses to that name under that very prefix.
   */
  lemma BoundHandleIsKeyed(sha384: seq<Byte> -> Digest, transmitted: string, pubkey: seq<Byte>, name: string)
    ensures var shown, prefix := DisplayBound(sha384, transmitted, pubkey), sha384(pubkey)[..6];
      && shown.hashPrefix == prefix
      && (shown.displayName == Some(name) <==> Parse(transmitted) == Ok(Handle(Some(name), prefix)))
      && Parse(Print(shown)) == Ok(shown)
  {
    var shown := DisplayBound(sha384, transmitted, pubkey);
    if Parse(transmitted).Ok? {
      ParsedForm(transmitted);
    }
    PrintThenParse(shown);
  }
}
