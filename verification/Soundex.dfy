/** A model of an American-Soundex-style encoder: a letter classification
    table, a per-character classifier, and a generator that writes the
    4-character code into a caller-owned 5-slot buffer.

    The pure part (classifier, reference encoding `Encode`) is written as
    functions; the buffer-writing part (`AppendCode`, `Finalize`,
    `Generate`) as methods over an `array<char>`, and `Generate` is proved
    to produce exactly `Encode(name)`. */
module Soundex {

  /** The string terminator written into the last buffer slot. */
  const NUL: char := '\0'

  /** Digit class of each letter 'A'..'Z', in alphabetical order. */
  const Mapping: seq<int> :=
    [0, 1, 2, 3, 0, 1, 2, 0, 0, 2,
     2, 4, 5, 5, 0, 1, 2, 6, 2, 3,
     0, 1, 0, 2, 0, 2]

  // ---------------------------------------------------------------------
  // Character classification
  // ---------------------------------------------------------------------

  /** `toupper` in the "C" locale: ASCII 'a'..'z' become 'A'..'Z', every
      other character is left alone. */
  function ToUpper(c: char): char {
    if 'a' <= c <= 'z' then (c as int - 32) as char else c
  }

  predicate IsUpperLetter(c: char) {
    'A' <= c <= 'Z'
  }

  /** Every character of `s`, uppercased. */
  function UpperAll(s: seq<char>): seq<char> {
    seq(|s|, i requires 0 <= i < |s| => ToUpper(s[i]))
  }

  /** The classifier: the digit class of `c` as an ASCII digit character. */
  function SoundexCode(c: char): (r: char)
    ensures '0' <= r <= '6'
    ensures !IsUpperLetter(ToUpper(c)) ==> r == '0'
  {
    var u := ToUpper(c);
    if u < 'A' || u > 'Z' then '0'
    else
      assert forall k :: 0 <= k < |Mapping| ==> 0 <= Mapping[k] <= 6;
      "0123456"[Mapping[u as int - 'A' as int]]
  }

  /** The classic letter groups of American Soundex, written independently
      of the table. */
  function GroupOf(u: char): char {
    if u in "BFPV" then '1'
    else if u in "CGJKQSXZ" then '2'
    else if u in "DT" then '3'
    else if u == 'L' then '4'
    else if u in "MN" then '5'
    else if u == 'R' then '6'
    else '0'
  }

  /** The table agrees with the letter groups: vowels and H, W, Y (and every
      non-letter) are '0', and every other letter gets its group's digit. */
  lemma CodeMatchesGroups(c: char)
    ensures SoundexCode(c) == GroupOf(ToUpper(c))
  {
    var u := ToUpper(c);
    if IsUpperLetter(u) {
      var k := u as int - 'A' as int;
      assert 0 <= k < 26;
      assert u == "ABCDEFGHIJKLMNOPQRSTUVWXYZ"[k];
    }
  }

  /** Classification ignores case. */
  lemma CodeIgnoresCase(c: char)
    ensures SoundexCode(ToUpper(c)) == SoundexCode(c)
    ensures ToUpper(ToUpper(c)) == ToUpper(c)
  {
  }

  // ---------------------------------------------------------------------
  // Reference encoding
  // ---------------------------------------------------------------------

  /** The code of every character of `s`, in order. */
  function Codes(s: seq<char>): (r: seq<char>)
    ensures |r| == |s|
    ensures forall i :: 0 <= i < |s| ==> r[i] == SoundexCode(s[i])
  {
    seq(|s|, i requires 0 <= i < |s| => SoundexCode(s[i]))
  }

  /** `s` with every silent '0' removed. */
  function NonZero(s: seq<char>): seq<char> {
    if s == [] then []
    else (if s[0] == '0' then [] else [s[0]]) + NonZero(s[1..])
  }

  /** `s` with every element that equals the one kept before it dropped;
      `prev` plays the part of the element kept before `s[0]`. */
  function Collapse(prev: char, s: seq<char>): seq<char>
    decreases s
  {
    if s == [] then []
    else if s[0] == prev then Collapse(prev, s[1..])
    else [s[0]] + Collapse(s[0], s[1..])
  }

  /** The last element of `d`, or `prev` when `d` is empty. */
  function Last(prev: char, d: seq<char>): char {
    if d == [] then prev else d[|d| - 1]
  }

  /** The digits Soundex keeps for the characters `s` that follow the
      leading character `first`: silent codes are dropped first, then runs
      of equal codes collapse, and a code equal to `first` itself (not to
      its class) is dropped too. */
  function Digits(first: char, s: seq<char>): seq<char> {
    Collapse(first, NonZero(Codes(s)))
  }

  /** The first three of `d`, padded on the right with '0'. */
  function Pad3(d: seq<char>): (r: seq<char>)
    ensures |r| == 3
    ensures forall k :: 0 <= k < 3 ==> r[k] == if k < |d| then d[k] else '0'
  {
    if |d| >= 3 then d[..3] else d + seq(3 - |d|, _ => '0')
  }

  /** The 4 significant characters of the code of `name`: the uppercased
      first character, then three digits. An empty name gives NUL
      followed by "000". */
  function Encode(name: seq<char>): (r: seq<char>)
    ensures |r| == 4
    ensures r[0] == if name == [] then NUL else ToUpper(name[0])
    ensures forall k :: 1 <= k < 4 ==> '0' <= r[k] <= '6'
  {
    if name == [] then [NUL, '0', '0', '0']
    else
      var first := ToUpper(name[0]);
      DigitsRange(first, name[1..]);
      [first] + Pad3(Digits(first, name[1..]))
  }

  // ---------------------------------------------------------------------
  // Lemmas about the reference encoding
  // ---------------------------------------------------------------------

  lemma {:induction false} NonZeroAppend(a: seq<char>, b: seq<char>)
    ensures NonZero(a + b) == NonZero(a) + NonZero(b)
  {
    if a == [] {
      assert a + b == b;
    } else {
      assert (a + b)[0] == a[0];
      assert (a + b)[1..] == a[1..] + b;
      NonZeroAppend(a[1..], b);
    }
  }

  lemma {:induction false} NonZeroMembers(s: seq<char>, x: char)
    ensures x in NonZero(s) ==> x in s && x != '0'
  {
    if s != [] {
      NonZeroMembers(s[1..], x);
    }
  }

  lemma {:induction false} CollapseMembers(prev: char, s: seq<char>, x: char)
    ensures x in Collapse(prev, s) ==> x in s
    decreases s
  {
    if s != [] {
      CollapseMembers(if s[0] == prev then prev else s[0], s[1..], x);
    }
  }

  /** Appending one element to the input of Collapse appends it to the
      output exactly when it differs from the element kept last. */
  lemma {:induction false} CollapseSnoc(prev: char, s: seq<char>, x: char)
    ensures Collapse(prev, s + [x]) ==
      Collapse(prev, s) + (if x == Last(prev, Collapse(prev, s)) then [] else [x])
    decreases s
  {
    if s != [] {
      assert (s + [x])[1..] == s[1..] + [x];
      if s[0] == prev {
        CollapseSnoc(prev, s[1..], x);
      } else {
        CollapseSnoc(s[0], s[1..], x);
        var rest := Collapse(s[0], s[1..]);
        assert Last(prev, [s[0]] + rest) == Last(s[0], rest);
      }
    }
  }

  /** No two adjacent kept digits are equal, and the first kept digit
      differs from the leading character. */
  lemma {:induction false} CollapseNoRepeats(prev: char, s: seq<char>)
    ensures var r := Collapse(prev, s);
      (|r| > 0 ==> r[0] != prev) &&
      forall k :: 0 < k < |r| ==> r[k] != r[k - 1]
    decreases s
  {
    if s != [] {
      if s[0] == prev {
        CollapseNoRepeats(prev, s[1..]);
      } else {
        CollapseNoRepeats(s[0], s[1..]);
      }
    }
  }

  /** Every kept digit is one of '1'..'6'. */
  lemma DigitsRange(first: char, s: seq<char>)
    ensures forall k :: 0 <= k < |Digits(first, s)| ==> '1' <= Digits(first, s)[k] <= '6'
  {
    var d := Digits(first, s);
    forall k | 0 <= k < |d|
      ensures '1' <= d[k] <= '6'
    {
      CollapseMembers(first, NonZero(Codes(s)), d[k]);
      NonZeroMembers(Codes(s), d[k]);
    }
  }

  /** Adjacent duplicate suppression: no two consecutive digits of a code
      are equal, and the first digit never equals the leading character. */
  lemma DigitsNoRepeats(first: char, s: seq<char>)
    ensures var d := Digits(first, s);
      (|d| > 0 ==> d[0] != first) &&
      forall k :: 0 < k < |d| ==> d[k] != d[k - 1]
  {
    CollapseNoRepeats(first, NonZero(Codes(s)));
  }

  /** One more input character adds its code exactly when the code is not
      silent and differs from the digit (or leading character) kept last:
      the step the generator's loop takes. */
  lemma DigitsSnoc(first: char, s: seq<char>, c: char)
    ensures var code := SoundexCode(c);
      Digits(first, s + [c]) ==
        Digits(first, s) +
        (if code != '0' && code != Last(first, Digits(first, s)) then [code] else [])
  {
    var code := SoundexCode(c);
    var kept := NonZero(Codes(s));
    assert Codes(s + [c]) == Codes(s) + [code];
    NonZeroAppend(Codes(s), [code]);
    assert [code][1..] == [];
    assert NonZero([code]) == if code == '0' then [] else [code];
    if code == '0' {
      assert NonZero(Codes(s + [c])) == kept;
    } else {
      assert NonZero(Codes(s + [c])) == kept + [code];
      CollapseSnoc(first, kept, code);
    }
  }

  /** Reading more input only ever extends the kept digits, so stopping
      once three are kept loses nothing from the first three. */
  lemma {:induction false} DigitsPrefix(first: char, s: seq<char>, t: seq<char>)
    ensures Digits(first, s) <= Digits(first, s + t)
    decreases |t|
  {
    if t == [] {
      assert s + t == s;
    } else {
      var t' := t[..|t| - 1];
      DigitsPrefix(first, s, t');
      assert s + t == (s + t') + [t[|t| - 1]];
      DigitsSnoc(first, s + t', t[|t| - 1]);
      var a, b, c := Digits(first, s), Digits(first, s + t'), Digits(first, s + t);
      assert b <= c;
      assert a == b[..|a|] && b == c[..|b|];
      assert a == c[..|a|];
    }
  }

  lemma CodesAppend(a: seq<char>, b: seq<char>)
    ensures Codes(a + b) == Codes(a) + Codes(b)
  {
  }

  /** Once the characters up to `k` have given three digits, the rest of
      the name cannot change the code: the generator may stop reading. */
  lemma EncodeStopsAtThreeDigits(name: seq<char>, k: nat)
    requires 1 <= k <= |name|
    requires |Digits(ToUpper(name[0]), name[1..k])| >= 3
    ensures Encode(name[..k]) == Encode(name)
  {
    var first := ToUpper(name[0]);
    assert name[..k][1..] == name[1..k];
    assert name[1..] == name[1..k] + name[k..];
    DigitsPrefix(first, name[1..k], name[k..]);
  }

  lemma NonZeroSkipsZero(a: seq<char>, b: seq<char>)
    ensures NonZero(a + ['0'] + b) == NonZero(a + b)
  {
    NonZeroAppend(a + ['0'], b);
    NonZeroAppend(a, ['0']);
    NonZeroAppend(a, b);
    assert NonZero(['0']) == [] by {
      assert ['0'][1..] == [];
    }
  }

  /** A silent character (vowel, H, W, Y or non-letter) inside the name
      neither adds a digit nor separates two equal codes around it. */
  lemma SilentCharIgnored(first: char, s: seq<char>, v: char, t: seq<char>)
    requires SoundexCode(v) == '0'
    ensures Digits(first, s + [v] + t) == Digits(first, s + t)
  {
    CodesAppend(s, [v]);
    CodesAppend(s + [v], t);
    CodesAppend(s, t);
    assert Codes(s + [v] + t) == Codes(s) + ['0'] + Codes(t);
    NonZeroSkipsZero(Codes(s), Codes(t));
    assert NonZero(Codes(s + [v] + t)) == NonZero(Codes(s + t));
  }

  /** When the name starts with a letter, that letter never suppresses the
      code that follows it, even a code of the letter's own class: the first
      digit is always the first non-silent code of the rest. */
  lemma FirstLetterNeverSuppresses(first: char, s: seq<char>)
    requires IsUpperLetter(first)
    ensures var kept := NonZero(Codes(s));
      kept != [] ==> Digits(first, s) != [] && Digits(first, s)[0] == kept[0]
  {
    var kept := NonZero(Codes(s));
    if kept != [] {
      NonZeroMembers(Codes(s), kept[0]);
      assert kept[0] in kept;
    }
  }

  /** Uppercasing the whole name first does not change its code. */
  lemma EncodeIgnoresCase(name: seq<char>)
    ensures Encode(UpperAll(name)) == Encode(name)
  {
    if name != [] {
      var up := UpperAll(name);
      forall i | 0 <= i < |name| ensures SoundexCode(up[i]) == SoundexCode(name[i]) {
        CodeIgnoresCase(name[i]);
      }
      assert Codes(up[1..]) == Codes(name[1..]);
      CodeIgnoresCase(name[0]);
    }
  }

  /** Reduces the code of a concrete name to its per-character codes. */
  lemma EncodeFromCodes(name: seq<char>, codes: seq<char>, digits: seq<char>)
    requires |name| >= 1 && |codes| == |name| - 1
    requires forall i :: 0 <= i < |codes| ==> codes[i] == SoundexCode(name[i + 1])
    requires Collapse(ToUpper(name[0]), NonZero(codes)) == digits
    ensures Encode(name) == [ToUpper(name[0])] + Pad3(digits)
  {
    assert Codes(name[1..]) == codes;
  }

  /** The classes of the characters of "Robert" after the first. */
  lemma RobertCodes()
    ensures forall i :: 0 <= i < 5 ==> "01063"[i] == SoundexCode("Robert"[i + 1])
  {
    var name := "Robert";
    assert SoundexCode(name[1]) == '0';
    assert SoundexCode(name[2]) == '1';
    assert SoundexCode(name[3]) == '0';
    assert SoundexCode(name[4]) == '6';
    assert SoundexCode(name[5]) == '3';
  }

  /** The digits kept from the classes of "Robert" (and of "Rupert"). */
  lemma RobertDigits()
    ensures Collapse('R', NonZero("01063")) == "163"
  {
    var s := "01063";
    assert s[1..] == "1063";
    assert s[1..][1..] == "063";
    assert NonZero(s) == "163";
  }

  /** "Robert" codes as R163: the vowels add nothing. */
  lemma RobertCode()
    ensures Encode("Robert") == "R163"
  {
    RobertCodes();
    RobertDigits();
    EncodeFromCodes("Robert", "01063", "163");
    assert Pad3("163") == "163";
  }

  /** The classes of the characters of "Rupert" after the first. */
  lemma RupertCodes()
    ensures forall i :: 0 <= i < 5 ==> "01063"[i] == SoundexCode("Rupert"[i + 1])
  {
    var name := "Rupert";
    assert SoundexCode(name[1]) == '0';
    assert SoundexCode(name[2]) == '1';
    assert SoundexCode(name[3]) == '0';
    assert SoundexCode(name[4]) == '6';
    assert SoundexCode(name[5]) == '3';
  }

  /** "Rupert" codes as R163, the same as "Robert". */
  lemma RupertCode()
    ensures Encode("Rupert") == "R163"
  {
    RupertCodes();
    RobertDigits();
    EncodeFromCodes("Rupert", "01063", "163");
    assert Pad3("163") == "163";
  }

  /** "Lee" has no coded letter after the first, so it is padded to L000. */
  lemma LeeCode()
    ensures Encode("Lee") == "L000"
  {
    var name := "Lee";
    assert SoundexCode(name[1]) == '0';
    assert SoundexCode(name[2]) == '0';
    assert NonZero("00") == "";
    assert Collapse('L', "") == "";
    EncodeFromCodes("Lee", "00", "");
    assert Pad3("") == "000";
  }

  /** The classes of the characters of "Pfister" after the first. */
  lemma PfisterCodes()
    ensures forall i :: 0 <= i < 6 ==> "102306"[i] == SoundexCode("Pfister"[i + 1])
  {
    var name := "Pfister";
    assert SoundexCode(name[1]) == '1';
    assert SoundexCode(name[2]) == '0';
    assert SoundexCode(name[3]) == '2';
    assert SoundexCode(name[4]) == '3';
    assert SoundexCode(name[5]) == '0';
    assert SoundexCode(name[6]) == '6';
  }

  /** The digits kept from the classes of "Pfister". */
  lemma PfisterDigits()
    ensures Collapse('P', NonZero("102306")) == "1236"
  {
    var s := "102306";
    assert s[1..] == "02306";
    assert s[1..][1..] == "2306";
    assert s[1..][1..][1..] == "306";
    assert NonZero(s) == "1236";
  }

  /** "Pfister" codes as P123: the leading 'P' is compared as a character, so
      it does not suppress the 'F' of the same class (classic NARA gives P236). */
  lemma PfisterCode()
    ensures Encode("Pfister") == "P123"
  {
    PfisterCodes();
    PfisterDigits();
    EncodeFromCodes("Pfister", "102306", "1236");
    assert Pad3("1236") == "123";
  }

  /** The classes of the characters of "Tymczak" after the first. */
  lemma TymczakCodes()
    ensures forall i :: 0 <= i < 6 ==> "052202"[i] == SoundexCode("Tymczak"[i + 1])
  {
    var name := "Tymczak";
    assert SoundexCode(name[1]) == '0';
    assert SoundexCode(name[2]) == '5';
    assert SoundexCode(name[3]) == '2';
    assert SoundexCode(name[4]) == '2';
    assert SoundexCode(name[5]) == '0';
    assert SoundexCode(name[6]) == '2';
  }

  /** The digits kept from the classes of "Tymczak". */
  lemma TymczakDigits()
    ensures Collapse('T', NonZero("052202")) == "52"
  {
    var s := "052202";
    assert s[1..] == "52202";
    assert s[1..][1..] == "2202";
    assert s[1..][1..][1..] == "202";
    assert NonZero(s) == "5222";
  }

  /** "Tymczak" codes as T520: the 'A' between 'Z' and 'K' does not separate
      their equal codes. */
  lemma TymczakCode()
    ensures Encode("Tymczak") == "T520"
  {
    TymczakCodes();
    TymczakDigits();
    EncodeFromCodes("Tymczak", "052202", "52");
    assert Pad3("52") == "520";
  }

  /** The classes of the characters of "Ashcraft" after the first. */
  lemma AshcraftCodes()
    ensures forall i :: 0 <= i < 7 ==> "2026013"[i] == SoundexCode("Ashcraft"[i + 1])
  {
    var name := "Ashcraft";
    assert SoundexCode(name[1]) == '2';
    assert SoundexCode(name[2]) == '0';
    assert SoundexCode(name[3]) == '2';
    assert SoundexCode(name[4]) == '6';
    assert SoundexCode(name[5]) == '0';
    assert SoundexCode(name[6]) == '1';
    assert SoundexCode(name[7]) == '3';
  }

  /** The digits kept from the classes of "Ashcraft". */
  lemma AshcraftDigits()
    ensures Collapse('A', NonZero("2026013")) == "2613"
  {
    var s := "2026013";
    assert s[1..] == "026013";
    assert s[1..][1..] == "26013";
    assert s[1..][1..][1..] == "6013";
    assert s[1..][1..][1..][1..] == "013";
    assert NonZero(s) == "22613";
  }

  /** "Ashcraft" codes as A261: the 'H' between 'S' and 'C' does not separate
      their equal codes, and input stops counting after three digits. */
  lemma AshcraftCode()
    ensures Encode("Ashcraft") == "A261"
  {
    AshcraftCodes();
    AshcraftDigits();
    EncodeFromCodes("Ashcraft", "2026013", "2613");
    assert Pad3("2613") == "261";
  }

  /** A leading non-letter is compared as a character too: after a leading '2',
      the code '2' of 's' is dropped. */
  lemma DigitFirstCode()
    ensures Encode("2s") == "2000"
  {
    var name := "2s";
    assert SoundexCode(name[1]) == '2';
    assert NonZero("2") == "2";
    assert Collapse('2', "2") == "";
    EncodeFromCodes("2s", "2", "");
    assert Pad3("") == "000";
  }

  // ---------------------------------------------------------------------
  // The buffer-writing generator
  // ---------------------------------------------------------------------

  /** Writes `code` at `sIndex` and returns the advanced cursor, unless the
      code is silent or equals the slot just before the cursor, in which
      case nothing changes. */
  method AppendCode(code: char, soundex: array<char>, sIndex: int) returns (next: int)
    requires 1 <= sIndex < soundex.Length
    modifies soundex
    ensures next == if code != '0' && code != old(soundex[sIndex - 1]) then sIndex + 1 else sIndex
    ensures soundex[..] == if next == sIndex then old(soundex[..]) else old(soundex[..])[sIndex := code]
  {
    next := sIndex;
    if code != '0' && code != soundex[sIndex - 1] {
      soundex[next] := code;
      next := next + 1;
    }
  }

  /** Pads slots `sIndex`..3 with '0' and puts NUL in slot 4; slots below
      `sIndex` and beyond 4 are left alone. */
  method Finalize(soundex: array<char>, sIndex: int)
    requires 5 <= soundex.Length
    requires 0 <= sIndex
    modifies soundex
    ensures forall k :: 0 <= k < soundex.Length ==>
      soundex[k] == if k == 4 then NUL else if sIndex <= k < 4 then '0' else old(soundex[k])
  {
    var i := sIndex;
    while i < 4
      invariant i == sIndex || sIndex < i <= 4
      invariant forall k :: 0 <= k < soundex.Length ==>
        soundex[k] == if sIndex <= k < i then '0' else old(soundex[k])
    {
      soundex[i] := '0';
      i := i + 1;
    }
    soundex[4] := NUL;
  }

  /** What the generator's loop keeps true of the buffer `buf` after reading
      the characters of `name` before index `i`: the cursor is in 1..4, slot
      0 holds the uppercased first character, and the slots before the
      cursor hold the digits kept from what has been read. */
  ghost predicate LoopInvariant(name: seq<char>, i: int, sIndex: int, buf: seq<char>) {
    && 1 <= sIndex <= 4 < |buf|
    && buf[0] == ToUpper(if name == [] then NUL else name[0])
    && (name == [] ==> sIndex == 1)
    && (name != [] ==> 1 <= i <= |name| && buf[1..sIndex] == Digits(buf[0], name[1..i]))
  }

  /** One pass of the generator's loop body (classify `name[i]`, then
      append) keeps the loop invariant. */
  lemma GenerateStep(name: seq<char>, i: int, sIndex: int, buf: seq<char>, next: int, buf': seq<char>)
    requires LoopInvariant(name, i, sIndex, buf)
    requires 0 <= i < |name| && sIndex < 4
    requires var code := SoundexCode(name[i]);
      && next == (if code != '0' && code != buf[sIndex - 1] then sIndex + 1 else sIndex)
      && buf' == (if next == sIndex then buf else buf[sIndex := code])
    ensures LoopInvariant(name, i + 1, next, buf')
  {
    var first, code := buf[0], SoundexCode(name[i]);
    var kept := Digits(first, name[1..i]);
    assert Last(first, kept) == buf[sIndex - 1];
    assert name[1..i + 1] == name[1..i] + [name[i]];
    DigitsSnoc(first, name[1..i], name[i]);
    if next != sIndex {
      assert buf'[1..next] == buf[1..sIndex] + [code];
    }
  }

  /** When the generator's loop stops, the characters it has written,
      padded with '0' up to four, are the reference code of `name`. */
  lemma GenerateLoopExit(name: seq<char>, i: int, sIndex: int, buf: seq<char>)
    requires LoopInvariant(name, i, sIndex, buf)
    requires i >= |name| || sIndex == 4
    ensures Encode(name) == buf[..sIndex] + seq(4 - sIndex, _ => '0')
  {
    if name != [] {
      var first := buf[0];
      assert name[1..] == name[1..i] + name[i..];
      DigitsPrefix(first, name[1..i], name[i..]);
      var full := Digits(first, name[1..]);
      assert i == |name| ==> name[1..i] == name[1..];
      assert sIndex - 1 == if |full| < 3 then |full| else 3;
      assert Encode(name) == [first] + Pad3(full);
      assert buf[..sIndex] == [first] + buf[1..sIndex];
    }
  }

  /** After padding, slots 0..3 are the written prefix followed by '0's. */
  lemma PaddedPrefix(before: seq<char>, after: seq<char>, sIndex: int)
    requires 1 <= sIndex <= 4 < |before| == |after|
    requires forall k :: 0 <= k < 4 ==> after[k] == if sIndex <= k then '0' else before[k]
    ensures after[..4] == before[..sIndex] + seq(4 - sIndex, _ => '0')
  {
  }

  /** Writes the code of `name` into `soundex`: slots 0..3 hold
      `Encode(name)`, slot 4 holds NUL, and later slots are untouched. */
  method Generate(name: seq<char>, soundex: array<char>)
    requires 5 <= soundex.Length
    modifies soundex
    ensures soundex[..4] == Encode(name)
    ensures soundex[4] == NUL
    ensures forall k :: 5 <= k < soundex.Length ==> soundex[k] == old(soundex[k])
  {
    soundex[0] := ToUpper(if name == [] then NUL else name[0]);
    var sIndex := 1;
    var i := 1;
    while i < |name| && sIndex < 4
      invariant LoopInvariant(name, i, sIndex, soundex[..])
      invariant soundex[5..] == old(soundex[5..])
    {
      var code := SoundexCode(name[i]);
      ghost var before := soundex[..];
      var next := AppendCode(code, soundex, sIndex);
      GenerateStep(name, i, sIndex, before, next, soundex[..]);
      sIndex := next;
      i := i + 1;
    }
    GenerateLoopExit(name, i, sIndex, soundex[..]);
    ghost var before := soundex[..];
    Finalize(soundex, sIndex);
    PaddedPrefix(before, soundex[..], sIndex);
  }
}
