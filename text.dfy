/**
 * The few Python string operations the TSPLIB readers rely on:
 * `str.isspace`, `str.strip`, `str.split()` with no argument,
 * `str.startswith` and `int(str)`, plus decimal formatting of an
 * integer, used to state the round trips of the readers.
 */
module Text {
  import opened Results

  /** The characters for which Python's `str.isspace` holds. */
  predicate IsSpace(c: char) {
    c == ' ' || c == '\t' || c == '\n' || c == '\r' || c == '\U{000B}' || c == '\U{000C}'
    || ('\U{001C}' <= c <= '\U{001F}') || c == '\U{0085}' || c == '\U{00A0}' || c == '\U{1680}'
    || ('\U{2000}' <= c <= '\U{200A}') || c == '\U{2028}' || c == '\U{2029}' || c == '\U{202F}'
    || c == '\U{205F}' || c == '\U{3000}'
  }

  /** A non-empty run of non-whitespace characters, as `str.split()` yields. */
  predicate IsToken(w: string) {
    |w| > 0 && forall k :: 0 <= k < |w| ==> !IsSpace(w[k])
  }

  /** Python's `s.lstrip()`: drops the leading whitespace. */
  function StripLeft(s: string): (r: string)
    ensures |r| <= |s|
    ensures r == [] || !IsSpace(r[0])
  {
    if s != [] && IsSpace(s[0]) then StripLeft(s[1..]) else s
  }

  /** Python's `s.rstrip()`: drops the trailing whitespace. */
  function StripRight(s: string): (r: string)
    ensures |r| <= |s|
    ensures r == [] || !IsSpace(r[|r| - 1])
  {
    if s != [] && IsSpace(s[|s| - 1]) then StripRight(s[..|s| - 1]) else s
  }

  /** Python's `s.strip()`. */
  function Strip(s: string): (r: string)
    ensures |r| <= |s|
    ensures r == [] || (!IsSpace(r[0]) && !IsSpace(r[|r| - 1]))
  {
    var t := StripLeft(s);
    StripRightIsPrefix(t);
    StripRight(t)
  }

  /** `lstrip()` removes a prefix made of whitespace only. */
  lemma {:induction false} StripLeftRemovesSpaces(s: string)
    ensures StripLeft(s) == s[|s| - |StripLeft(s)|..]
    ensures forall k :: 0 <= k < |s| - |StripLeft(s)| ==> IsSpace(s[k])
  {
    if s != [] && IsSpace(s[0]) {
      StripLeftRemovesSpaces(s[1..]);
    }
  }

  lemma {:induction false} StripRightIsPrefix(s: string)
    ensures StripRight(s) == s[..|StripRight(s)|]
  {
    if s != [] && IsSpace(s[|s| - 1]) {
      StripRightIsPrefix(s[..|s| - 1]);
    }
  }

  /** `rstrip()` removes a suffix made of whitespace only. */
  lemma {:induction false} StripRightRemovesSpaces(s: string)
    ensures StripRight(s) == s[..|StripRight(s)|]
    ensures forall k :: |StripRight(s)| <= k < |s| ==> IsSpace(s[k])
  {
    if s != [] && IsSpace(s[|s| - 1]) {
      StripRightRemovesSpaces(s[..|s| - 1]);
    }
  }

  /**
   * `strip()` keeps the part of the string between the leading and the
   * trailing whitespace, and removes nothing else.
   */
  lemma StripRemovesSpaces(s: string)
    ensures var i := |s| - |StripLeft(s)|;
      Strip(s) == s[i..i + |Strip(s)|]
      && (forall k :: 0 <= k < i ==> IsSpace(s[k]))
      && (forall k :: i + |Strip(s)| <= k < |s| ==> IsSpace(s[k]))
  {
    var t := StripLeft(s);
    StripLeftRemovesSpaces(s);
    StripRightRemovesSpaces(t);
  }

  /** Python's `s.startswith(prefix)`. */
  predicate StartsWith(s: string, prefix: string) {
    |prefix| <= |s| && s[..|prefix|] == prefix
  }

  /** `s.startswith(prefix)` compares the first `len(prefix)` characters one by one. */
  lemma StartsWithChars(s: string, prefix: string)
    ensures StartsWith(s, prefix) <==> |prefix| <= |s| && forall k :: 0 <= k < |prefix| ==> s[k] == prefix[k]
  {
    if |prefix| <= |s| && forall k :: 0 <= k < |prefix| ==> s[k] == prefix[k] {
      assert s[..|prefix|] == prefix;
    }
  }

  lemma StartsWithHead(s: string, prefix: string)
    requires StartsWith(s, prefix) && |prefix| > 0
    ensures s != [] && s[0] == prefix[0]
  {
    assert s[..|prefix|][0] == s[0];
  }

  /** The longest prefix of `s` holding no whitespace. */
  function TakeWord(s: string): (w: string)
    ensures |w| <= |s| && w == s[..|w|]
    ensures forall k :: 0 <= k < |w| ==> !IsSpace(w[k])
    ensures |w| == |s| || IsSpace(s[|w|])
  {
    if s == [] || IsSpace(s[0]) then [] else [s[0]] + TakeWord(s[1..])
  }

  /** Python's `s.split()`: the maximal runs of non-whitespace characters, in order. */
  function Split(s: string): (r: seq<string>)
    ensures forall k :: 0 <= k < |r| ==> IsToken(r[k])
    ensures s != [] && !IsSpace(s[0]) ==> r != []
    decreases |s|
  {
    var t := StripLeft(s);
    if t == [] then []
    else
      var w := TakeWord(t);
      assert |w| > 0;
      var rest := Split(t[|w|..]);
      var r := [w] + rest;
      assert r[0] == w && r[1..] == rest;
      r
  }

  /** Tokens joined with single spaces: the inverse of `Split` on tokens. */
  function Unwords(ws: seq<string>): string {
    if ws == [] then ""
    else if |ws| == 1 then ws[0]
    else ws[0] + " " + Unwords(ws[1..])
  }

  predicate IsDigit(c: char) {
    '0' <= c <= '9'
  }

  function DigitValue(c: char): nat
    requires IsDigit(c)
  {
    c as int - '0' as int
  }

  function DigitChar(d: nat): (c: char)
    requires d < 10
    ensures IsDigit(c) && DigitValue(c) == d
  {
    (d + '0' as int) as char
  }

  /**
   * The digit strings `int()` accepts (ASCII digits only): a non-empty run of
   * digits where an underscore may stand only between two digits.
   */
  predicate IsDigitString(s: string) {
    |s| > 0 && IsDigit(s[0]) && IsDigitsOrUnderscores(s)
    && forall k :: 0 <= k < |s| && s[k] == '_' ==> k + 1 < |s| && IsDigit(s[k + 1])
  }

  predicate IsDigitsOrUnderscores(s: string) {
    forall k :: 0 <= k < |s| ==> IsDigit(s[k]) || s[k] == '_'
  }

  /** The value of a string of digits and underscores, underscores ignored. */
  function DigitsValue(s: string): nat
    requires IsDigitsOrUnderscores(s)
  {
    if s == [] then 0
    else if s[|s| - 1] == '_' then DigitsValue(s[..|s| - 1])
    else DigitsValue(s[..|s| - 1]) * 10 + DigitValue(s[|s| - 1])
  }

  /**
   * Python's `int(s)` on a string that `strip()` has already trimmed: an
   * optional sign followed by a digit string; anything else raises
   * `ValueError`, modelled as `None`.
   */
  function ParseInt(s: string): (r: Option<int>)
    ensures r.Some? ==> s != [] && !IsSpace(s[0]) && !IsSpace(s[|s| - 1])
  {
    if |s| > 0 && (s[0] == '+' || s[0] == '-') then
      var body := s[1..];
      if IsDigitString(body) then
        var v: int := DigitsValue(body);
        Some(if s[0] == '-' then -v else v)
      else None
    else if IsDigitString(s) then Some(DigitsValue(s))
    else None
  }

  /** Decimal notation of a natural number, without leading zeros. */
  function NatToString(k: nat): (s: string)
    ensures |s| > 0 && forall i :: 0 <= i < |s| ==> IsDigit(s[i])
  {
    if k < 10 then [DigitChar(k)] else NatToString(k / 10) + [DigitChar(k % 10)]
  }

  /** Python's `str(k)` on an integer. */
  function IntToString(k: int): (s: string)
    ensures |s| > 0 && (IsDigit(s[0]) || s[0] == '-') && IsDigit(s[|s| - 1])
    ensures forall i :: 0 < i < |s| ==> IsDigit(s[i])
  {
    if k < 0 then "-" + NatToString(-k) else NatToString(k)
  }

  lemma {:induction false} NatToStringValue(k: nat)
    ensures IsDigitString(NatToString(k))
    ensures DigitsValue(NatToString(k)) == k
  {
    if k >= 10 {
      NatToStringValue(k / 10);
      var p := NatToString(k / 10);
      var s := p + [DigitChar(k % 10)];
      assert s[..|s| - 1] == p;
    }
  }

  /** `int(str(k)) == k`: the integer parser inverts decimal formatting. */
  lemma ParseIntToString(k: int)
    ensures ParseInt(IntToString(k)) == Some(k)
  {
    if k < 0 {
      NatToStringValue(-k);
      assert IntToString(k)[1..] == NatToString(-k);
    } else {
      NatToStringValue(k);
    }
  }

  /** A string with no whitespace at either end is left unchanged by `strip()`. */
  lemma StripUnchanged(s: string)
    requires s == [] || (!IsSpace(s[0]) && !IsSpace(s[|s| - 1]))
    ensures Strip(s) == s
  {
  }

  lemma {:induction false} TakeWordOfToken(w: string, rest: string)
    requires IsToken(w)
    requires rest == [] || IsSpace(rest[0])
    ensures TakeWord(w + rest) == w
  {
    if |w| > 1 {
      assert (w + rest)[1..] == w[1..] + rest;
      TakeWordOfToken(w[1..], rest);
    }
  }

  lemma SplitLeadingSpace(s: string)
    ensures Split(" " + s) == Split(s)
  {
    assert (" " + s)[1..] == s;
  }

  lemma SplitCons(w: string, rest: string)
    requires IsToken(w)
    ensures Split(w + " " + rest) == [w] + Split(rest)
  {
    var s := w + " " + rest;
    TakeWordOfToken(w, " " + rest);
    assert s == w + (" " + rest);
    assert s[|w|..] == " " + rest;
    SplitLeadingSpace(rest);
  }

  lemma SplitToken(w: string)
    requires IsToken(w)
    ensures Split(w) == [w]
  {
    TakeWordOfToken(w, "");
    assert w + "" == w;
    assert w[|w|..] == "";
  }

  /** A line of single-space-separated tokens: its ends, its prefix and its strip. */
  lemma {:induction false} UnwordsFacts(ws: seq<string>)
    requires |ws| > 0 && forall k :: 0 <= k < |ws| ==> IsToken(ws[k])
    ensures |Unwords(ws)| > 0 && StartsWith(Unwords(ws), ws[0])
    ensures !IsSpace(Unwords(ws)[|Unwords(ws)| - 1])
    ensures Strip(Unwords(ws)) == Unwords(ws)
  {
    var u := Unwords(ws);
    assert IsToken(ws[0]);
    if |ws| > 1 {
      assert IsToken(ws[1..][0]);
      UnwordsFacts(ws[1..]);
      var tail := Unwords(ws[1..]);
      assert u == ws[0] + (" " + tail);
      assert u[..|ws[0]|] == ws[0];
      assert u[|u| - 1] == tail[|tail| - 1];
    } else {
      assert u[..|ws[0]|] == ws[0];
    }
    StartsWithHead(u, ws[0]);
    StripUnchanged(u);
  }

  /** `s.split()` recovers the tokens joined by single spaces. */
  lemma {:induction false} SplitUnwords(ws: seq<string>)
    requires forall k :: 0 <= k < |ws| ==> IsToken(ws[k])
    ensures Split(Unwords(ws)) == ws
  {
    if |ws| == 1 {
      SplitToken(ws[0]);
    } else if |ws| > 1 {
      var tail := Unwords(ws[1..]);
      assert Unwords(ws) == ws[0] + " " + tail;
      assert IsToken(ws[0]);
      SplitCons(ws[0], tail);
      assert forall k :: 0 <= k < |ws[1..]| ==> IsToken(ws[1..][k]) by {
        forall k | 0 <= k < |ws[1..]| ensures IsToken(ws[1..][k]) {
          assert ws[1..][k] == ws[k + 1];
        }
      }
      SplitUnwords(ws[1..]);
      assert [ws[0]] + ws[1..] == ws;
    }
  }

  // ---------------------------------------------------------------------
  // `split()` with arbitrary whitespace between the fields
  // ---------------------------------------------------------------------

  /** A string made of whitespace only (possibly empty). */
  predicate IsBlank(s: string) {
    forall k :: 0 <= k < |s| ==> IsSpace(s[k])
  }

  /** Each field followed by its separator. */
  function Spaced(ws: seq<string>, seps: seq<string>): string
    requires |seps| == |ws|
  {
    if ws == [] then "" else ws[0] + seps[0] + Spaced(ws[1..], seps[1..])
  }

  /** Separators of whitespace only, all non-empty except the trailing one. */
  predicate IsSeparation(ws: seq<string>, seps: seq<string>) {
    |seps| == |ws|
    && (forall k :: 0 <= k < |seps| ==> IsBlank(seps[k]))
    && (forall k :: 0 <= k && k + 1 < |seps| ==> seps[k] != [])
  }

  lemma {:induction false} StripLeftBlank(sp: string, s: string)
    requires IsBlank(sp)
    ensures StripLeft(sp + s) == StripLeft(s)
    decreases |sp|
  {
    if sp != [] {
      assert IsSpace(sp[0]);
      assert (sp + s)[0] == sp[0] && (sp + s)[1..] == sp[1..] + s;
      assert IsBlank(sp[1..]) by {
        forall k | 0 <= k < |sp[1..]| ensures IsSpace(sp[1..][k]) {
          assert sp[1..][k] == sp[k + 1];
        }
      }
      StripLeftBlank(sp[1..], s);
    } else {
      assert sp + s == s;
    }
  }

  /** Leading whitespace does not change the fields. */
  lemma SplitSkipsBlank(sp: string, s: string)
    requires IsBlank(sp)
    ensures Split(sp + s) == Split(s)
  {
    StripLeftBlank(sp, s);
  }

  /** A token ended by whitespace or by the end of the string is the first field. */
  lemma SplitWord(w: string, t: string)
    requires IsToken(w) && (t == [] || IsSpace(t[0]))
    ensures Split(w + t) == [w] + Split(t)
  {
    assert (w + t)[0] == w[0];
    TakeWordOfToken(w, t);
    assert (w + t)[|w|..] == t;
  }

  /** Dropping the first field and its separator leaves a separation of tokens. */
  lemma SeparationTail(ws: seq<string>, seps: seq<string>)
    requires IsSeparation(ws, seps) && |ws| > 0
    requires forall k :: 0 <= k < |ws| ==> IsToken(ws[k])
    ensures IsSeparation(ws[1..], seps[1..])
    ensures forall k :: 0 <= k < |ws[1..]| ==> IsToken(ws[1..][k])
  {
    forall k | 0 <= k < |seps[1..]| ensures IsBlank(seps[1..][k]) {
      assert seps[1..][k] == seps[k + 1];
    }
    forall k | 0 <= k && k + 1 < |seps[1..]| ensures seps[1..][k] != [] {
      assert seps[1..][k] == seps[k + 1];
    }
    forall k | 0 <= k < |ws[1..]| ensures IsToken(ws[1..][k]) {
      assert ws[1..][k] == ws[k + 1];
    }
  }

  /**
   * `s.split()` returns the fields of any line made of tokens separated by
   * runs of whitespace, with any whitespace before the first and after the
   * last: spaces and tabs, single or repeated.
   */
  lemma {:induction false} SplitSpaced(lead: string, ws: seq<string>, seps: seq<string>)
    requires IsBlank(lead) && IsSeparation(ws, seps)
    requires forall k :: 0 <= k < |ws| ==> IsToken(ws[k])
    ensures Split(lead + Spaced(ws, seps)) == ws
    decreases |ws|
  {
    SplitSkipsBlank(lead, Spaced(ws, seps));
    if ws != [] {
      var rest := Spaced(ws[1..], seps[1..]);
      AppendAssoc(ws[0], seps[0], rest);
      assert IsToken(ws[0]) && IsBlank(seps[0]);
      if seps[0] == [] {
        assert |ws| == 1 && rest == [];
      } else {
        assert (seps[0] + rest)[0] == seps[0][0];
      }
      SplitWord(ws[0], seps[0] + rest);
      SeparationTail(ws, seps);
      SplitSpaced(seps[0], ws[1..], seps[1..]);
      assert [ws[0]] + ws[1..] == ws;
    }
  }

  /** The whitespace before the first field. */
  function Lead(s: string): (r: string)
    ensures |r| <= |s|
  {
    s[..|s| - |StripLeft(s)|]
  }

  /** The whitespace after each field of `s`, as `Split` walks it. */
  function Seps(s: string): (r: seq<string>)
    decreases |s|
  {
    var t := StripLeft(s);
    if t == [] then []
    else
      var w := TakeWord(t);
      assert |w| > 0;
      var u := t[|w|..];
      [Lead(u)] + Seps(u)
  }

  lemma LeadFacts(s: string)
    ensures IsBlank(Lead(s)) && s == Lead(s) + StripLeft(s)
  {
    StripLeftRemovesSpaces(s);
    var i := |s| - |StripLeft(s)|;
    var lead := s[..i];
    assert Lead(s) == lead;
    forall k | 0 <= k < |lead| ensures IsSpace(lead[k]) {
      assert lead[k] == s[k];
    }
    SplitAt(s, i);
  }

  /** One more field in front keeps the separators well formed. */
  lemma SeparationCons(w: string, ws: seq<string>, sep: string, seps: seq<string>)
    requires IsSeparation(ws, seps) && IsBlank(sep) && (ws != [] ==> sep != [])
    ensures IsSeparation([w] + ws, [sep] + seps)
  {
    var seps' := [sep] + seps;
    forall k | 0 <= k < |seps'| ensures IsBlank(seps'[k]) {
      if k > 0 { assert seps'[k] == seps[k - 1]; }
    }
    forall k | 0 <= k && k + 1 < |seps'| ensures seps'[k] != [] {
      if k > 0 { assert seps'[k] == seps[k - 1]; }
    }
  }

  /** The first field of `s` and the text after it, `u`: `t == w + u`, and `u` is empty or starts with whitespace. */
  lemma FirstFieldRest(s: string)
    requires StripLeft(s) != []
    ensures var t := StripLeft(s); var w := TakeWord(t);
      |w| > 0 && t == w + t[|w|..] && (t[|w|..] == [] || IsSpace(t[|w|..][0]))
  {
    var t := StripLeft(s);
    var w := TakeWord(t);
    SplitAt(t, |w|);
  }

  /** `Split` and `Seps` go on from the text after the first field. */
  lemma SplitFieldsStep(s: string)
    requires StripLeft(s) != []
    ensures var t := StripLeft(s); var u := t[|TakeWord(t)|..];
      Split(s) == [TakeWord(t)] + Split(u) && Seps(s) == [Lead(u)] + Seps(u)
  {
  }

  /**
   * Every string is its leading whitespace followed by the fields of
   * `s.split()`, each followed by a run of whitespace: together with
   * `SplitSpaced` this determines `split()` on every string.
   */
  lemma {:induction false} SplitFields(s: string)
    ensures IsBlank(Lead(s)) && IsSeparation(Split(s), Seps(s))
    ensures s == Lead(s) + Spaced(Split(s), Seps(s))
    decreases |s|
  {
    LeadFacts(s);
    var t := StripLeft(s);
    if t == [] {
      assert s == Lead(s) + [];
    } else {
      FirstFieldRest(s);
      SplitFieldsStep(s);
      var w := TakeWord(t);
      var u := t[|w|..];
      SplitFields(u);
      LeadFacts(u);
      assert Split(u) != [] ==> Lead(u) != [];
      SeparationCons(w, Split(u), Lead(u), Seps(u));
      var rest := Spaced(Split(u), Seps(u));
      assert u == Lead(u) + rest;
      assert Spaced(Split(s), Seps(s)) == w + Lead(u) + rest;
      AppendAssoc(w, Lead(u), rest);
    }
  }
}
