/**
 * The option parsing and iteration counting of the mesh-adaptation
 * driver: the lists of complexities and sub-iteration counts are read from
 * parenthesised comma-separated strings, their integers summed into the
 * global iteration count, the back-mesh and size options given their
 * defaults, and the adaptation loop numbers its global iterations from 1.
 */
module MeshAdaptation {

  datatype Option<T> = None | Some(value: T)

  datatype Result<T> = Ok(value: T) | Fail(error: AdapError)

  /**
   * How Parse_Adap_Options stops: a missing key, the iteration-count exit,
   * mismatched list lengths (its message formats a list with %d, so the
   * script stops there with a TypeError), an entry int() or float() rejects.
   */
  datatype AdapError = MissingKey(key: string) | NoIteration | CountMismatch | BadInteger | BadFloat

  // ---------------------------------------------------------------------
  // strip and split
  // ---------------------------------------------------------------------

  /** str.lstrip(chars): drop leading characters of the set. */
  function StripLeft(s: string, cs: set<char>): string {
    if |s| > 0 && s[0] in cs then StripLeft(s[1..], cs) else s
  }

  /** lstrip keeps a suffix, drops only characters of the set, and stops at one outside it. */
  lemma {:induction false} StripLeftSuffix(s: string, cs: set<char>)
    ensures var r := StripLeft(s, cs);
      && |r| <= |s| && r == s[|s| - |r|..]
      && (forall i :: 0 <= i < |s| - |r| ==> s[i] in cs)
      && (r == [] || r[0] !in cs)
  {
    if |s| > 0 && s[0] in cs {
      StripLeftSuffix(s[1..], cs);
    }
  }

  /** str.rstrip(chars): drop trailing characters of the set. */
  function StripRight(s: string, cs: set<char>): string {
    if |s| > 0 && s[|s| - 1] in cs then StripRight(s[..|s| - 1], cs) else s
  }

  /** rstrip keeps a prefix, drops only characters of the set, and stops at one outside it. */
  lemma {:induction false} StripRightPrefix(s: string, cs: set<char>)
    ensures var r := StripRight(s, cs);
      && |r| <= |s| && r == s[..|r|]
      && (forall i :: |r| <= i < |s| ==> s[i] in cs)
      && (r == [] || r[|r| - 1] !in cs)
  {
    if |s| > 0 && s[|s| - 1] in cs {
      StripRightPrefix(s[..|s| - 1], cs);
    }
  }

  /** str.strip(chars): drop the characters of the set from both ends. */
  function Strip(s: string, cs: set<char>): string {
    StripRight(StripLeft(s, cs), cs)
  }

  /** Stripping keeps a contiguous middle part, all of whose removed characters are in the set and whose ends are not. */
  lemma StripKeepsMiddle(s: string, cs: set<char>)
    ensures exists i, j :: (
      && 0 <= i <= j <= |s| && Strip(s, cs) == s[i..j]
      && (forall k :: 0 <= k < i ==> s[k] in cs) && (forall k :: j <= k < |s| ==> s[k] in cs))
    ensures Strip(s, cs) == [] || (Strip(s, cs)[0] !in cs && Strip(s, cs)[|Strip(s, cs)| - 1] !in cs)
  {
    var l := StripLeft(s, cs);
    var r := StripRight(l, cs);
    StripLeftSuffix(s, cs);
    StripRightPrefix(l, cs);
    var i := |s| - |l|;
    var j := i + |r|;
    assert s[i..j] == r;
    assert forall k :: j <= k < |s| ==> s[k] == l[k - i];
  }

  /** Stripping twice strips no more. */
  lemma StripIdempotent(s: string, cs: set<char>)
    ensures Strip(Strip(s, cs), cs) == Strip(s, cs)
  {
    StripKeepsMiddle(s, cs);
    var t := Strip(s, cs);
    assert StripLeft(t, cs) == t;
    assert StripRight(t, cs) == t;
  }

  /** str.split(sep) with a one-character separator: the pieces between separators, at least one. */
  function Split(s: string, sep: char): (parts: seq<string>)
    ensures |parts| >= 1
  {
    if |s| == 0 then [""]
    else if s[0] == sep then [""] + Split(s[1..], sep)
    else
      var rest := Split(s[1..], sep);
      [[s[0]] + rest[0]] + rest[1..]
  }

  /** No piece of a split holds the separator. */
  lemma {:induction false} SplitPiecesHaveNoSeparator(s: string, sep: char)
    ensures forall k :: 0 <= k < |Split(s, sep)| ==> sep !in Split(s, sep)[k]
  {
    if |s| > 0 {
      SplitPiecesHaveNoSeparator(s[1..], sep);
    }
  }

  /** sep.join(parts). */
  function Join(parts: seq<string>, sep: char): string
    requires |parts| >= 1
  {
    if |parts| == 1 then parts[0] else parts[0] + [sep] + Join(parts[1..], sep)
  }

  /** Joining the pieces of a split gives back the string. */
  lemma {:induction false} JoinSplit(s: string, sep: char)
    ensures Join(Split(s, sep), sep) == s
  {
    if |s| > 0 {
      JoinSplit(s[1..], sep);
      var rest := Split(s[1..], sep);
      if s[0] == sep {
        assert s == [sep] + s[1..];
      } else if |rest| == 1 {
        assert s == [s[0]] + s[1..];
      } else {
        assert Join(rest, sep) == rest[0] + [sep] + Join(rest[1..], sep);
        assert Join(Split(s, sep), sep) == ([s[0]] + rest[0]) + [sep] + Join(rest[1..], sep);
        assert s == [s[0]] + s[1..];
      }
    }
  }

  /** The number of separators in s. */
  function Count(s: string, c: char): nat {
    if |s| == 0 then 0 else (if s[0] == c then 1 else 0) + Count(s[1..], c)
  }

  /** A split yields one more piece than there are separators. */
  lemma {:induction false} SplitCount(s: string, sep: char)
    ensures |Split(s, sep)| == Count(s, sep) + 1
  {
    if |s| > 0 {
      SplitCount(s[1..], sep);
    }
  }

  /** The parentheses a list option may be wrapped in. */
  const Parens: set<char> := {'(', ')'}

  /** A list option: parentheses stripped from both ends, then split on commas. */
  function ListEntries(s: string): seq<string> {
    Split(Strip(s, Parens), ',')
  }

  // ---------------------------------------------------------------------
  // int()
  // ---------------------------------------------------------------------

  /** The whitespace int() ignores around a number. */
  const Whitespace: set<char> := {' ', '\t', '\n', '\r', '\U{000B}', '\U{000C}'}

  predicate IsDigit(c: char) { '0' as int <= c as int <= '9' as int }

  /** Every character a decimal digit, read from the last one back. */
  predicate AllDigits(ds: string) {
    |ds| == 0 || (IsDigit(ds[|ds| - 1]) && AllDigits(ds[..|ds| - 1]))
  }

  /** The value of a string of decimal digits. */
  function DigitsValue(ds: string): nat
    requires AllDigits(ds)
  {
    if |ds| == 0 then 0 else 10 * DigitsValue(ds[..|ds| - 1]) + (ds[|ds| - 1] as int - '0' as int)
  }

  /** The sign int() reads in front of the digits. */
  function SignOf(t: string): int {
    if |t| > 0 && t[0] == '-' then -1 else 1
  }

  /** What follows an optional sign. */
  function Unsigned(t: string): string {
    if |t| > 0 && (t[0] == '-' || t[0] == '+') then t[1..] else t
  }

  /**
   * Python 2's int() of a str: whitespace, an optional sign, whitespace
   * again (the unsigned conversion skips blanks of its own after the
   * sign), at least one decimal digit, and trailing whitespace.
   */
  function ParseInt(s: string): Option<int> {
    var t := Strip(s, Whitespace);
    var ds := StripLeft(Unsigned(t), Whitespace);
    if |ds| > 0 && AllDigits(ds) then Some(SignOf(t) * DigitsValue(ds)) else None
  }

  /**
   * Blanks between the sign and the digits are accepted; a lone sign and
   * an empty entry are rejected, so "()" or a trailing comma is an error
   * rather than no iteration.
   */
  lemma ParseIntSignAndBlanks()
    ensures ParseInt("- 3") == Some(-3)
    ensures ParseInt(" +\t12 ") == Some(12)
    ensures ParseInt("-") == None
    ensures ParseInt("") == None
  {
    assert StripLeft("- 3", Whitespace) == "- 3";
    assert StripRight("- 3", Whitespace) == "- 3";
    assert StripLeft(" 3", Whitespace) == "3";
    assert AllDigits("3") && DigitsValue("3") == 3;
    assert StripLeft(" +\t12 ", Whitespace) == "+\t12 ";
    assert StripRight("+\t12 ", Whitespace) == "+\t12";
    assert StripLeft("\t12", Whitespace) == "12";
    assert "12"[..1] == "1";
    assert AllDigits("12") && DigitsValue("12") == 12;
    assert StripLeft("-", Whitespace) == "-";
    assert StripRight("-", Whitespace) == "-";
  }

  /** The decimal digits of n. */
  function DigitChar(d: nat): (c: char)
    requires d < 10
    ensures IsDigit(c) && c as int - '0' as int == d
  {
    ('0' as int + d) as char
  }

  function NatToString(n: nat): (s: string)
    ensures |s| > 0 && IsDigit(s[0]) && AllDigits(s)
  {
    if n < 10 then [DigitChar(n)]
    else
      var front := NatToString(n / 10);
      var s := front + [DigitChar(n % 10)];
      assert s[..|s| - 1] == front;
      s
  }

  /** Reading back the digits of a number gives the number. */
  lemma {:induction false} DigitsOfNat(n: nat)
    ensures DigitsValue(NatToString(n)) == n
  {
    if n >= 10 {
      DigitsOfNat(n / 10);
      var s := NatToString(n);
      assert s[..|s| - 1] == NatToString(n / 10);
    }
  }

  /** int() reads back what str() writes for a non-negative integer. */
  lemma ParseIntOfNat(n: nat)
    ensures ParseInt(NatToString(n)) == Some(n)
  {
    var s := NatToString(n);
    DigitsOfNat(n);
    assert s[0] !in Whitespace;
    assert IsDigit(s[|s| - 1]) && s[|s| - 1] !in Whitespace;
    assert StripLeft(s, Whitespace) == s;
    assert StripRight(s, Whitespace) == s;
    assert Unsigned(s) == s && SignOf(s) == 1;
  }

  /** int() of every entry, or nothing when one is rejected. */
  function ParseAll(xs: seq<string>): (r: Option<seq<int>>)
    ensures r.Some? ==> |r.value| == |xs|
  {
    if |xs| == 0 then Some([])
    else
      var head := ParseInt(xs[0]);
      var tail := ParseAll(xs[1..]);
      if head.None? || tail.None? then None else Some([head.value] + tail.value)
  }

  /** A list that is not rejected holds int() of each entry. */
  lemma {:induction false} ParseAllEntries(xs: seq<string>)
    requires ParseAll(xs).Some?
    ensures forall k :: 0 <= k < |xs| ==> ParseInt(xs[k]) == Some(ParseAll(xs).value[k])
  {
    if |xs| > 0 {
      ParseAllEntries(xs[1..]);
      forall k | 0 < k < |xs|
        ensures ParseInt(xs[k]) == Some(ParseAll(xs).value[k])
      {
        assert xs[k] == xs[1..][k - 1];
      }
    }
  }

  /** One entry int() rejects makes the whole list rejected. */
  lemma {:induction false} ParseAllRejects(xs: seq<string>, k: nat)
    requires k < |xs| && ParseInt(xs[k]).None?
    ensures ParseAll(xs).None?
  {
    if k > 0 {
      ParseAllRejects(xs[1..], k - 1);
    }
  }

  /** The sum of the entries. */
  function Sum(xs: seq<int>): int {
    if |xs| == 0 then 0 else Sum(xs[..|xs| - 1]) + xs[|xs| - 1]
  }

  // ---------------------------------------------------------------------
  // Parse_Adap_Options
  // ---------------------------------------------------------------------

  /** The options the adaptation loop reads. */
  datatype AdapConfig = AdapConfig(
    adapComplex: seq<int>, adapSubite: seq<int>, nbrIte: nat, nbrIteGlo: int,
    adapPath: string, adapBack: int, adapBackName: Option<string>,
    hmin: real, hmax: real, hgrad: real)

  /** The ADAP_BACK flag: 1 when the option is "YES" and a back mesh is named, 0 otherwise. */
  function AdapBack(config: map<string, string>): (b: int)
    ensures b == 1 <==> "ADAP_BACK" in config && config["ADAP_BACK"] == "YES" && "ADAP_BACK_NAME" in config
    ensures b == 0 || b == 1
  {
    if "ADAP_BACK" in config then
      if config["ADAP_BACK"] == "YES" then (if "ADAP_BACK_NAME" !in config then 0 else 1)
      else 0
    else 0
  }

  /**
   * An optional real option: float() of the value read from `readKey`
   * when `testKey` is present, the default otherwise. HMIN tests the key
   * ADAP_HIN and reads ADAP_HMIN.
   */
  function RealOption(config: map<string, string>, toFloat: string -> Option<real>, testKey: string, readKey: string, default: real): Result<real> {
    if testKey in config then
      if readKey !in config then Fail(MissingKey(readKey))
      else if toFloat(config[readKey]).None? then Fail(BadFloat)
      else Ok(toFloat(config[readKey]).value)
    else Ok(default)
  }

  /** The integer lists Parse_Adap_Options reads, their length and NbrIteGlo. */
  datatype Lists = Lists(complex: seq<int>, subite: seq<int>, nbrIte: nat, nbrIteGlo: int)

  /** The list part of Parse_Adap_Options. */
  function ParseListsSpec(config: map<string, string>): Result<Lists> {
    if "ADAP_COMPLEXITIES" !in config then Fail(MissingKey("ADAP_COMPLEXITIES"))
    else
      var complex := ListEntries(config["ADAP_COMPLEXITIES"]);
      if |complex| < 1 then Fail(NoIteration)
      else if "ADAP_SUBITE" !in config then Fail(MissingKey("ADAP_SUBITE"))
      else
        var subite := ListEntries(config["ADAP_SUBITE"]);
        if |complex| != |subite| then Fail(CountMismatch)
        else
          var c := ParseAll(complex);
          var s := ParseAll(subite);
          if c.None? || s.None? then Fail(BadInteger)
          else Ok(Lists(c.value, s.value, |complex|, Sum(s.value)))
  }

  /** The path, back-mesh and size part of Parse_Adap_Options. */
  function OptionsSpec(config: map<string, string>, toFloat: string -> Option<real>, l: Lists): Result<AdapConfig> {
    var path := if "ADAP_PATH" in config then config["ADAP_PATH"] + "/" else "";
    var back := AdapBack(config);
    var backName := if back == 1 then Some(config["ADAP_BACK_NAME"]) else None;
    var hmin := RealOption(config, toFloat, "ADAP_HIN", "ADAP_HMIN", 0.0);
    var hmax := RealOption(config, toFloat, "ADAP_HMAX", "ADAP_HMAX", 1.0e300);
    var hgrad := RealOption(config, toFloat, "ADAP_HGRAD", "ADAP_HGRAD", 3.0);
    if hmin.Fail? then Fail(hmin.error)
    else if hmax.Fail? then Fail(hmax.error)
    else if hgrad.Fail? then Fail(hgrad.error)
    else Ok(AdapConfig(l.complex, l.subite, l.nbrIte, l.nbrIteGlo, path, back, backName, hmin.value, hmax.value, hgrad.value))
  }

  /** Parse_Adap_Options; float() is a parameter. */
  function ParseAdapSpec(config: map<string, string>, toFloat: string -> Option<real>): Result<AdapConfig> {
    var l := ParseListsSpec(config);
    if l.Fail? then Fail(l.error) else OptionsSpec(config, toFloat, l.value)
  }

  /** What a list parse that succeeds yields. */
  lemma ParsedLists(config: map<string, string>)
    requires ParseListsSpec(config).Ok?
    ensures var l := ParseListsSpec(config).value;
      && "ADAP_COMPLEXITIES" in config && "ADAP_SUBITE" in config
      && l.nbrIte >= 1 && |l.complex| == l.nbrIte && |l.subite| == l.nbrIte
      && l.nbrIteGlo == Sum(l.subite)
      && (forall k :: 0 <= k < l.nbrIte ==> ParseInt(ListEntries(config["ADAP_COMPLEXITIES"])[k]) == Some(l.complex[k]))
      && (forall k :: 0 <= k < l.nbrIte ==> ParseInt(ListEntries(config["ADAP_SUBITE"])[k]) == Some(l.subite[k]))
  {
    ParseAllEntries(ListEntries(config["ADAP_COMPLEXITIES"]));
    ParseAllEntries(ListEntries(config["ADAP_SUBITE"]));
  }

  /** The other options leave the lists as they were read. */
  lemma OptionsKeepLists(config: map<string, string>, toFloat: string -> Option<real>, l: Lists)
    requires OptionsSpec(config, toFloat, l).Ok?
    ensures var a := OptionsSpec(config, toFloat, l).value;
      a.adapComplex == l.complex && a.adapSubite == l.subite && a.nbrIte == l.nbrIte && a.nbrIteGlo == l.nbrIteGlo
  {
  }

  /** A parse that succeeds read its lists first and the other options from them. */
  lemma ParseAdapOk(config: map<string, string>, toFloat: string -> Option<real>)
    requires ParseAdapSpec(config, toFloat).Ok?
    ensures ParseListsSpec(config).Ok?
    ensures ParseAdapSpec(config, toFloat) == OptionsSpec(config, toFloat, ParseListsSpec(config).value)
  {
  }

  /**
   * What a parse that succeeds yields: the lists as ParsedLists describes
   * them, whatever the other options are.
   */
  lemma ParsedOptions(config: map<string, string>, toFloat: string -> Option<real>)
    requires ParseAdapSpec(config, toFloat).Ok?
    ensures ParseListsSpec(config).Ok?
    ensures var a, l := ParseAdapSpec(config, toFloat).value, ParseListsSpec(config).value;
      a.adapComplex == l.complex && a.adapSubite == l.subite && a.nbrIte == l.nbrIte && a.nbrIteGlo == l.nbrIteGlo
  {
    ParseAdapOk(config, toFloat);
    OptionsKeepLists(config, toFloat, ParseListsSpec(config).value);
  }

  /** The list part never takes the "invalid number of iterations" exit. */
  lemma ListsNeverNoIteration(config: map<string, string>)
    ensures ParseListsSpec(config) != Fail(NoIteration)
  {
  }

  /** Nor does the part that reads the other options. */
  lemma OptionsNeverNoIteration(config: map<string, string>, toFloat: string -> Option<real>, l: Lists)
    ensures OptionsSpec(config, toFloat, l) != Fail(NoIteration)
  {
  }

  /** The "invalid number of iterations" exit is never taken: a split always yields at least one entry. */
  lemma NoIterationUnreachable(config: map<string, string>, toFloat: string -> Option<real>)
    ensures ParseAdapSpec(config, toFloat) != Fail(NoIteration)
  {
    ListsNeverNoIteration(config);
    var l := ParseListsSpec(config);
    if l.Ok? {
      OptionsNeverNoIteration(config, toFloat, l.value);
    }
  }

  /** The sizes default to HMIN 0, HMAX 1e300 and HGRAD 3.0; HMIN is read only when the key ADAP_HIN is present. */
  lemma SizeDefaults(config: map<string, string>, toFloat: string -> Option<real>)
    requires ParseAdapSpec(config, toFloat).Ok?
    ensures "ADAP_HIN" !in config ==> ParseAdapSpec(config, toFloat).value.hmin == 0.0
    ensures "ADAP_HMAX" !in config ==> ParseAdapSpec(config, toFloat).value.hmax == 1.0e300
    ensures "ADAP_HGRAD" !in config ==> ParseAdapSpec(config, toFloat).value.hgrad == 3.0
    ensures "ADAP_HIN" in config ==> Some(ParseAdapSpec(config, toFloat).value.hmin) == toFloat(config["ADAP_HMIN"])
  {
  }

  /** The integer lists of a parse, entry by entry, with NbrIteGlo accumulated as the loop does. */
  method ConvertEntries(complex: seq<string>, subite: seq<string>) returns (r: Option<(seq<int>, seq<int>, int)>)
    requires |complex| == |subite|
    ensures ParseAll(complex).Some? && ParseAll(subite).Some? ==>
      r == Some((ParseAll(complex).value, ParseAll(subite).value, Sum(ParseAll(subite).value)))
    ensures ParseAll(complex).None? || ParseAll(subite).None? <==> r.None?
  {
    var c, s, nbrIteGlo := [], [], 0;
    for i := 0 to |complex|
      invariant ParseAll(complex[..i]) == Some(c)
      invariant ParseAll(subite[..i]) == Some(s)
      invariant nbrIteGlo == Sum(s)
    {
      var ci := ParseInt(complex[i]);
      if ci.None? {
        ParseAllRejects(complex, i);
        return None;
      }
      var si := ParseInt(subite[i]);
      if si.None? {
        ParseAllRejects(subite, i);
        return None;
      }
      ParsePrefixNext(complex, i);
      ParsePrefixNext(subite, i);
      SumAppend(s, si.value);
      c := c + [ci.value];
      s := s + [si.value];
      nbrIteGlo := nbrIteGlo + si.value;
    }
    assert complex[..|complex|] == complex;
    assert subite[..|subite|] == subite;
    r := Some((c, s, nbrIteGlo));
  }

  /** One entry further into a list whose prefix parsed. */
  lemma ParsePrefixNext(xs: seq<string>, i: nat)
    requires i < |xs| && ParseAll(xs[..i]).Some? && ParseInt(xs[i]).Some?
    ensures ParseAll(xs[..i + 1]) == Some(ParseAll(xs[..i]).value + [ParseInt(xs[i]).value])
  {
    ParseAllAppend(xs[..i], xs[i]);
    assert xs[..i + 1] == xs[..i] + [xs[i]];
  }

  /** Appending an entry appends its int(), or rejects the list. */
  lemma {:induction false} ParseAllAppend(xs: seq<string>, x: string)
    ensures ParseAll(xs + [x]) ==
      (if ParseAll(xs).Some? && ParseInt(x).Some? then Some(ParseAll(xs).value + [ParseInt(x).value]) else None)
  {
    var ys := xs + [x];
    if |xs| > 0 {
      assert ys[0] == xs[0] && ys[1..] == xs[1..] + [x];
      ParseAllAppend(xs[1..], x);
      var h, t := ParseInt(xs[0]), ParseAll(xs[1..]);
      if h.Some? && t.Some? && ParseInt(x).Some? {
        assert [h.value] + (t.value + [ParseInt(x).value]) == ([h.value] + t.value) + [ParseInt(x).value];
      }
    } else {
      assert ys == [x] && ys[1..] == [];
      if ParseInt(x).Some? {
        assert [ParseInt(x).value] + [] == [] + [ParseInt(x).value];
      }
    }
  }

  /** Appending an entry adds it to the sum. */
  lemma SumAppend(xs: seq<int>, x: int)
    ensures Sum(xs + [x]) == Sum(xs) + x
  {
    assert (xs + [x])[..|xs|] == xs;
  }

  /** The list part of Parse_Adap_Options, step by step. */
  method ParseLists(config: map<string, string>) returns (r: Result<Lists>)
    ensures r == ParseListsSpec(config)
  {
    if "ADAP_COMPLEXITIES" !in config {
      return Fail(MissingKey("ADAP_COMPLEXITIES"));
    }
    var adapComplex := Strip(config["ADAP_COMPLEXITIES"], Parens);
    var complex := Split(adapComplex, ',');
    var nbrIte := |complex|;
    if nbrIte < 1 {
      return Fail(NoIteration);
    }
    if "ADAP_SUBITE" !in config {
      return Fail(MissingKey("ADAP_SUBITE"));
    }
    var adapSubite := Strip(config["ADAP_SUBITE"], Parens);
    var subite := Split(adapSubite, ',');
    if nbrIte != |subite| {
      return Fail(CountMismatch);
    }
    var lists := ConvertEntries(complex, subite);
    if lists.None? {
      return Fail(BadInteger);
    }
    r := Ok(Lists(lists.value.0, lists.value.1, nbrIte, lists.value.2));
  }

  /** The path, back-mesh and size part of Parse_Adap_Options, assigning the options one after the other. */
  method SetOptions(config: map<string, string>, toFloat: string -> Option<real>, l: Lists) returns (r: Result<AdapConfig>)
    ensures r == OptionsSpec(config, toFloat, l)
  {
    var a := AdapConfig(l.complex, l.subite, l.nbrIte, l.nbrIteGlo, "", 0, None, 0.0, 0.0, 0.0);
    if "ADAP_PATH" in config {
      a := a.(adapPath := config["ADAP_PATH"] + "/");
    } else {
      a := a.(adapPath := "");
    }
    if "ADAP_BACK" in config {
      if config["ADAP_BACK"] == "YES" {
        a := a.(adapBack := 1);
        if "ADAP_BACK_NAME" !in config {
          a := a.(adapBack := 0);
        } else {
          a := a.(adapBackName := Some(config["ADAP_BACK_NAME"]));
        }
      } else {
        a := a.(adapBack := 0);
      }
    } else {
      a := a.(adapBack := 0);
    }
    if "ADAP_HIN" in config {
      if "ADAP_HMIN" !in config {
        return Fail(MissingKey("ADAP_HMIN"));
      }
      var h := toFloat(config["ADAP_HMIN"]);
      if h.None? {
        return Fail(BadFloat);
      }
      a := a.(hmin := h.value);
    } else {
      a := a.(hmin := 0.0);
    }
    if "ADAP_HMAX" in config {
      var h := toFloat(config["ADAP_HMAX"]);
      if h.None? {
        return Fail(BadFloat);
      }
      a := a.(hmax := h.value);
    } else {
      a := a.(hmax := 1.0e300);
    }
    if "ADAP_HGRAD" in config {
      var h := toFloat(config["ADAP_HGRAD"]);
      if h.None? {
        return Fail(BadFloat);
      }
      a := a.(hgrad := h.value);
    } else {
      a := a.(hgrad := 3.0);
    }
    r := Ok(a);
  }

  /** Parse_Adap_Options: the lists first, then the other options. */
  method ParseAdapOptions(config: map<string, string>, toFloat: string -> Option<real>) returns (r: Result<AdapConfig>)
    ensures r == ParseAdapSpec(config, toFloat)
  {
    var l := ParseLists(config);
    if l.Fail? {
      return Fail(l.error);
    }
    r := SetOptions(config, toFloat, l.value);
  }

  // ---------------------------------------------------------------------
  // The adaptation loop's counters
  // ---------------------------------------------------------------------

  /** One pass of the inner loop: the complexity index, the sub-iteration index and the global iteration number. */
  datatype Visit = Visit(cpx: nat, sub: nat, glo: int)

  /** range(n) runs max(n, 0) times. */
  function Runs(n: int): nat { if n > 0 then n else 0 }

  /** The passes of the first k complexities, numbered from 1. */
  function Schedule(subite: seq<int>, k: nat): (v: seq<Visit>)
    requires k <= |subite|
    ensures forall j :: 0 <= j < |v| ==> v[j].glo == j + 1
    ensures forall j :: 0 <= j < |v| ==> v[j].cpx < k && v[j].sub < Runs(subite[v[j].cpx])
  {
    if k == 0 then []
    else
      var before := Schedule(subite, k - 1);
      before + seq(Runs(subite[k - 1]), s requires 0 <= s => Visit(k - 1, s, |before| + s + 1))
  }

  /** The number of passes over the first k complexities. */
  function TotalRuns(subite: seq<int>, k: nat): nat
    requires k <= |subite|
  {
    if k == 0 then 0 else TotalRuns(subite, k - 1) + Runs(subite[k - 1])
  }

  /** There is one pass per sub-iteration; with no negative count that is NbrIteGlo. */
  lemma {:induction false} ScheduleLength(subite: seq<int>, k: nat)
    requires k <= |subite|
    ensures |Schedule(subite, k)| == TotalRuns(subite, k)
    ensures (forall j :: 0 <= j < k ==> subite[j] >= 0) ==> TotalRuns(subite, k) == Sum(subite[..k])
  {
    if k > 0 {
      ScheduleLength(subite, k - 1);
      assert subite[..k][..k - 1] == subite[..k - 1];
    }
  }

  /**
   * The loop of mesh_adaptation: ite_glo starts at 1 and each
   * sub-iteration of each complexity runs with the current value, then
   * increments it.
   */
  method AdaptationLoop(adapSubite: seq<int>) returns (iteGlo: int, visits: seq<Visit>)
    ensures visits == Schedule(adapSubite, |adapSubite|)
    ensures iteGlo == 1 + |visits|
  {
    iteGlo := 1;
    visits := [];
    for iteCpx := 0 to |adapSubite|
      invariant visits == Schedule(adapSubite, iteCpx)
      invariant iteGlo == 1 + |visits|
    {
      var nbrSub := adapSubite[iteCpx];
      ghost var before := visits;
      var iteSub := 0;
      while iteSub < nbrSub
        invariant 0 <= iteSub <= Runs(nbrSub)
        invariant visits == before + seq(iteSub, s requires 0 <= s => Visit(iteCpx, s, |before| + s + 1))
        invariant iteGlo == 1 + |visits|
      {
        visits := visits + [Visit(iteCpx, iteSub, iteGlo)];
        iteGlo := iteGlo + 1;
        iteSub := iteSub + 1;
      }
    }
  }

  /** The loop's final ite_glo is 1 + NbrIteGlo when no sub-iteration count is negative. */
  lemma FinalIterationNumber(a: AdapConfig, iteGlo: int, visits: seq<Visit>)
    requires a.nbrIte == |a.adapSubite| && a.nbrIteGlo == Sum(a.adapSubite)
    requires forall j :: 0 <= j < |a.adapSubite| ==> a.adapSubite[j] >= 0
    requires visits == Schedule(a.adapSubite, |a.adapSubite|) && iteGlo == 1 + |visits|
    ensures iteGlo == 1 + a.nbrIteGlo
  {
    ScheduleLength(a.adapSubite, |a.adapSubite|);
    assert a.adapSubite[..|a.adapSubite|] == a.adapSubite;
  }
}
