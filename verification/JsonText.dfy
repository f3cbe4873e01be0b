/**
  The text that ECMA-262, section 25.5.2, gives a canonical value, and that different canonical values
  have different texts.
 */
module JsonText {
  import opened Wrappers
  import opened Ordering
  import opened CanonicalJson

  // ----- Strings

  const HEX := "0123456789abcdef"

  /** Quotes, backslashes and control characters are escaped, everything else stands for itself. */
  function Escape(c: char): (text: string)
    ensures text != ""
  {
    var code := c as int;
    if c == '"' then "\\\""
    else if c == '\\' then "\\\\"
    else if code == 8 then "\\b"
    else if code == 9 then "\\t"
    else if code == 10 then "\\n"
    else if code == 12 then "\\f"
    else if code == 13 then "\\r"
    else if code < 32 then "\\u00" + [HEX[code / 16], HEX[code % 16]]
    else [c]
  }

  function QuoteChars(s: string): string {
    if s == "" then "" else Escape(s[0]) + QuoteChars(s[1..])
  }

  function QuoteText(s: string): string { "\"" + QuoteChars(s) + "\"" }

  // ----- Values

  /** Undefined and unsupported values have no text; canonical values hold none. */
  function Stringify(v: Json): string
    decreases v
  {
    match v
    case Null => "null"
    case Bool(flag) => if flag then "true" else "false"
    case Num(digits) => digits
    case Str(text) => QuoteText(text)
    case Arr(items) => "[" + StringifyItems(items) + "]"
    case Obj(members) => "{" + StringifyMembers(members) + "}"
    case _ => ""
  }

  function StringifyItems(items: seq<Json>): string
    decreases items
  {
    if items == [] then ""
    else Stringify(items[0]) + (if |items| == 1 then "" else "," + StringifyItems(items[1..]))
  }

  function StringifyMembers(members: seq<Keyed<Json>>): string
    decreases members
  {
    if members == [] then ""
    else
      QuoteText(members[0].key) + ":" + Stringify(members[0].value)
      + (if |members| == 1 then "" else "," + StringifyMembers(members[1..]))
  }

  /** Values that have a text: canonical ones with numbers that are texts of numbers. */
  predicate Printable(v: Json)
    decreases v
  {
    match v
    case Num(digits) => NumberText(digits)
    case Arr(items) => forall i | 0 <= i < |items| :: Printable(items[i])
    case Obj(members) => forall i | 0 <= i < |members| :: Printable(members[i].value)
    case Undefined => false
    case Unsupported => false
    case _ => true
  }

  // ----- What the texts are, by RFC 8259

  /** The value of a hexadecimal digit, by code point. */
  function HexValue(c: char): nat {
    if c as int >= 48 && c as int < 58 then c as int - 48 else if c as int >= 97 then c as int - 87 else 0
  }

  /** The character an escape of section 7 stands for, when it is one that stays below 256. */
  function Unescape(text: string): Option<char> {
    if |text| == 1 && text[0] as int >= 32 && text[0] != '"' && text[0] != '\\' then Some(text[0])
    else if |text| == 2 && text[0] == '\\' then
      if text[1] == '"' || text[1] == '\\' then Some(text[1])
      else if text[1] == 'b' then Some(8 as char)
      else if text[1] == 't' then Some(9 as char)
      else if text[1] == 'n' then Some(10 as char)
      else if text[1] == 'f' then Some(12 as char)
      else if text[1] == 'r' then Some(13 as char)
      else None
    else if |text| == 6 && text[..4] == "\\u00" then
      var code := 16 * HexValue(text[4]) + HexValue(text[5]);
      if code < 256 then Some(code as char) else None
    else None
  }

  /** Every escape stands for its character. */
  lemma EscapeStandsFor(c: char)
    ensures Unescape(Escape(c)) == Some(c)
  {
    if c as int < 32 {
      HexDigitValue(c as int / 16);
      HexDigitValue(c as int % 16);
    }
  }

  lemma HexDigitValue(i: nat)
    requires i < 16
    ensures HexValue(HEX[i]) == i
  {
  }

  /** Texts with commas between them. */
  function WithCommas(texts: seq<string>): string {
    if |texts| == 0 then "" else if |texts| == 1 then texts[0] else texts[0] + "," + WithCommas(texts[1..])
  }

  /** Literal names, an array's elements in brackets, and an object's members in braces with their names quoted. */
  lemma TextsOfValues(v: Json)
    ensures v == Null ==> Stringify(v) == "null"
    ensures v == Bool(true) ==> Stringify(v) == "true"
    ensures v == Bool(false) ==> Stringify(v) == "false"
    ensures v.Num? ==> Stringify(v) == v.digits
    ensures v.Str? ==> |Stringify(v)| >= 2 && Stringify(v) == ['"'] + QuoteChars(v.text) + ['"']
    ensures v.Arr? ==>
              var texts := seq(|v.items|, i requires 0 <= i < |v.items| => Stringify(v.items[i]));
              Stringify(v) == ['['] + WithCommas(texts) + [']']
    ensures v.Obj? ==>
              var texts := seq(|v.members|, i requires 0 <= i < |v.members| =>
                ['"'] + QuoteChars(v.members[i].key) + ['"'] + [':'] + Stringify(v.members[i].value));
              Stringify(v) == ['{'] + WithCommas(texts) + ['}']
  {
    if v.Arr? { ItemsWithCommas(v.items); }
    if v.Obj? { MembersWithCommas(v.members); }
  }

  lemma {:induction false} ItemsWithCommas(items: seq<Json>)
    ensures StringifyItems(items)
         == WithCommas(seq(|items|, i requires 0 <= i < |items| => Stringify(items[i])))
  {
    var texts := seq(|items|, i requires 0 <= i < |items| => Stringify(items[i]));
    if items != [] {
      ItemsWithCommas(items[1..]);
      assert texts[1..] == seq(|items[1..]|, i requires 0 <= i < |items[1..]| => Stringify(items[1..][i]));
      assert texts[0] + ("," + WithCommas(texts[1..])) == texts[0] + "," + WithCommas(texts[1..]);
      assert texts[0] + "" == texts[0];
    }
  }

  lemma {:induction false} MembersWithCommas(members: seq<Keyed<Json>>)
    ensures StringifyMembers(members)
         == WithCommas(seq(|members|, i requires 0 <= i < |members| =>
              ['"'] + QuoteChars(members[i].key) + ['"'] + [':'] + Stringify(members[i].value)))
  {
    var texts := seq(|members|, i requires 0 <= i < |members| =>
      ['"'] + QuoteChars(members[i].key) + ['"'] + [':'] + Stringify(members[i].value));
    if members != [] {
      var rest := members[1..];
      MembersWithCommas(rest);
      assert texts[1..] == seq(|rest|, i requires 0 <= i < |rest| =>
        ['"'] + QuoteChars(rest[i].key) + ['"'] + [':'] + Stringify(rest[i].value));
      assert texts[0] + ("," + WithCommas(texts[1..])) == texts[0] + "," + WithCommas(texts[1..]);
      assert texts[0] + "" == texts[0];
    }
  }

  /** A string is its characters' escapes, one after the other. */
  lemma QuotedInParts(s: string, t: string)
    ensures QuoteChars(s + t) == QuoteChars(s) + QuoteChars(t)
    decreases |s|
  {
    if s == "" {
      assert s + t == t;
    } else {
      assert (s + t)[1..] == s[1..] + t;
      QuotedInParts(s[1..], t);
      assert Escape(s[0]) + (QuoteChars(s[1..]) + QuoteChars(t)) == Escape(s[0]) + QuoteChars(s[1..]) + QuoteChars(t);
    }
  }

  // ----- Strings are read back in one way

  lemma SplitAlike(a: string, x: string, b: string, y: string)
    requires a + x == b + y && |a| == |b|
    ensures a == b && x == y
  {
    assert (a + x)[..|a|] == a && (b + y)[..|b|] == b;
    assert (a + x)[|a|..] == x && (b + y)[|b|..] == y;
  }

  lemma HexDistinct(i: nat, j: nat)
    requires i < 16 && j < 16 && HEX[i] == HEX[j]
    ensures i == j
  {
  }

  /** How long the escape of a character is shows in its first two characters. */
  function EscapeLength(s: string): nat {
    if s == "" || s[0] != '\\' then 1 else if |s| > 1 && s[1] == 'u' then 6 else 2
  }

  lemma EscapeHasItsLength(c: char, x: string)
    ensures |Escape(c)| == EscapeLength(Escape(c) + x)
    ensures (Escape(c) + x)[0] != '"'
  {
    var s := Escape(c) + x;
    assert s[0] == Escape(c)[0];
    if |Escape(c)| > 1 { assert s[1] == Escape(c)[1]; }
  }

  lemma EscapeUnique(c: char, d: char)
    requires Escape(c) == Escape(d)
    ensures c == d
  {
    var i, j := c as int, d as int;
    if |Escape(c)| == 6 {
      assert Escape(c)[4] == HEX[i / 16] && Escape(c)[5] == HEX[i % 16];
      assert Escape(d)[4] == HEX[j / 16] && Escape(d)[5] == HEX[j % 16];
      HexDistinct(i / 16, j / 16);
      HexDistinct(i % 16, j % 16);
    } else if |Escape(c)| == 2 {
      assert Escape(c)[1] == Escape(d)[1];
    }
  }

  /** A quoted text from after its opening quote on, followed by `x`. */
  function QuotedThen(s: string, x: string): string { QuoteChars(s) + "\"" + x }

  lemma QuotedStep(s: string, x: string)
    ensures s == "" ==> QuotedThen(s, x) == "\"" + x
    ensures s != "" ==> QuotedThen(s, x) == Escape(s[0]) + QuotedThen(s[1..], x) && QuotedThen(s, x)[0] != '"'
  {
    hide Escape, EscapeLength;
    if s == "" {
      assert "" + "\"" + x == "\"" + x;
    } else {
      var first, rest := Escape(s[0]), QuoteChars(s[1..]);
      assert QuoteChars(s) == first + rest;
      hide QuoteChars;
      assert first + rest + "\"" + x == first + (rest + "\"" + x);
      EscapeHasItsLength(s[0], rest + "\"" + x);
    }
  }

  lemma {:induction false} QuotedUnique(s: string, x: string, t: string, y: string)
    requires QuotedThen(s, x) == QuotedThen(t, y)
    ensures s == t && x == y
    decreases |s|
  {
    hide Escape, EscapeLength, QuotedThen;
    QuotedStep(s, x);
    QuotedStep(t, y);
    if s == "" {
      SplitAlike("\"", x, "\"", y);
    } else {
      EscapeHasItsLength(s[0], QuotedThen(s[1..], x));
      EscapeHasItsLength(t[0], QuotedThen(t[1..], y));
      SplitAlike(Escape(s[0]), QuotedThen(s[1..], x), Escape(t[0]), QuotedThen(t[1..], y));
      EscapeUnique(s[0], t[0]);
      QuotedUnique(s[1..], x, t[1..], y);
      assert s == [s[0]] + s[1..] && t == [t[0]] + t[1..];
    }
  }

  // ----- Values are read back in one way

  /** What may follow a value: nothing, a comma or a closing bracket. */
  predicate Ends(x: string) { x == "" || x[0] == ',' || x[0] == ']' || x[0] == '}' }

  lemma NumberNotShorter(t: string, x: string, u: string, y: string)
    requires NumberText(u) && Ends(x) && t + x == u + y
    ensures |t| >= |u|
  {
    assert forall i | 0 <= i < |u| :: (u + y)[i] == u[i] && IsNumberChar(u[i]);
    assert x != "" ==> (t + x)[|t|] == x[0];
  }

  lemma NumberUnique(t: string, x: string, u: string, y: string)
    requires NumberText(t) && NumberText(u) && Ends(x) && Ends(y) && t + x == u + y
    ensures t == u && x == y
  {
    NumberNotShorter(t, x, u, y);
    NumberNotShorter(u, y, t, x);
    SplitAlike(t, x, u, y);
  }

  /** What a text starts with shows what kind of value it is the text of. */
  predicate Starts(v: Json, c: char) {
    match v
    case Null => c == 'n'
    case Bool(flag) => c == if flag then 't' else 'f'
    case Num(_) => IsDigit(c) || c == '-'
    case Str(_) => c == '"'
    case Arr(_) => c == '['
    case Obj(_) => c == '{'
    case _ => false
  }

  lemma StartsItsText(v: Json, x: string)
    requires Printable(v)
    ensures Stringify(v) != "" && Starts(v, Stringify(v)[0]) && (Stringify(v) + x)[0] == Stringify(v)[0]
  {
  }

  lemma {:induction false} TextUnique(a: Json, x: string, b: Json, y: string)
    requires Printable(a) && Printable(b) && Ends(x) && Ends(y) && Stringify(a) + x == Stringify(b) + y
    ensures a == b && x == y
    decreases a, 1
  {
    StartsItsText(a, x);
    StartsItsText(b, y);
    match a
    case Null => SplitAlike("null", x, "null", y);
    case Bool(flag) => SplitAlike(Stringify(a), x, Stringify(a), y);
    case Num(t) => NumberUnique(t, x, b.digits, y);
    case Str(s) => StringTextUnique(s, x, b.text, y);
    case Arr(items) => ArrayTextUnique(items, x, b.items, y);
    case Obj(members) => ObjectTextUnique(members, x, b.members, y);
  }

  lemma StringTextUnique(s: string, x: string, t: string, y: string)
    requires QuoteText(s) + x == QuoteText(t) + y
    ensures s == t && x == y
  {
    hide QuoteChars;
    assert QuoteText(s) + x == "\"" + QuotedThen(s, x) && QuoteText(t) + y == "\"" + QuotedThen(t, y);
    SplitAlike("\"", QuotedThen(s, x), "\"", QuotedThen(t, y));
    QuotedUnique(s, x, t, y);
  }

  // ----- Arrays

  /** An array's text from after its opening bracket on, followed by `x`. */
  function ItemsThen(items: seq<Json>, x: string): string { StringifyItems(items) + "]" + x }

  /** What follows the first item. */
  function AfterItem(items: seq<Json>, x: string): string
    requires items != []
  {
    if |items| == 1 then "]" + x else "," + ItemsThen(items[1..], x)
  }

  lemma ItemsStep(items: seq<Json>, x: string)
    ensures items == [] ==> ItemsThen(items, x) == "]" + x
    ensures items != []
        ==> ItemsThen(items, x) == Stringify(items[0]) + AfterItem(items, x) && Ends(AfterItem(items, x))
  {
    hide Stringify;
    if |items| > 1 {
      var first, rest := Stringify(items[0]), StringifyItems(items[1..]);
      assert first + ("," + rest) + "]" + x == first + ("," + (rest + "]" + x));
    } else if |items| == 1 {
      var first := Stringify(items[0]);
      assert first + "" + "]" + x == first + ("]" + x);
    }
  }

  lemma ItemsStart(items: seq<Json>, x: string)
    requires forall i | 0 <= i < |items| :: Printable(items[i])
    ensures ItemsThen(items, x) != "" && (ItemsThen(items, x)[0] == ']' <==> items == [])
  {
    hide ItemsThen, AfterItem, Stringify, Printable;
    ItemsStep(items, x);
    if items != [] { StartsItsText(items[0], AfterItem(items, x)); }
  }

  lemma {:induction false} ArrayTextUnique(a: seq<Json>, x: string, b: seq<Json>, y: string)
    requires Printable(Arr(a)) && Printable(Arr(b)) && Stringify(Arr(a)) + x == Stringify(Arr(b)) + y
    ensures a == b && x == y
    decreases Arr(a), 0
  {
    hide StringifyItems;
    assert Stringify(Arr(a)) + x == "[" + ItemsThen(a, x) && Stringify(Arr(b)) + y == "[" + ItemsThen(b, y);
    SplitAlike("[", ItemsThen(a, x), "[", ItemsThen(b, y));
    ItemsUnique(a, x, b, y);
  }

  lemma {:induction false} ItemsUnique(a: seq<Json>, x: string, b: seq<Json>, y: string)
    requires (forall i | 0 <= i < |a| :: Printable(a[i])) && (forall i | 0 <= i < |b| :: Printable(b[i]))
    requires ItemsThen(a, x) == ItemsThen(b, y)
    ensures a == b && x == y
    decreases a, 2
  {
    hide Printable, Stringify, ItemsThen;
    ItemsStart(a, x);
    ItemsStart(b, y);
    ItemsStep(a, x);
    ItemsStep(b, y);
    if a == [] {
      SplitAlike("]", x, "]", y);
    } else {
      TextUnique(a[0], AfterItem(a, x), b[0], AfterItem(b, y));
      AfterItemUnique(a, x, b, y);
      if |a| > 1 { ItemsUnique(a[1..], x, b[1..], y); }
      assert a == [a[0]] + a[1..] && b == [b[0]] + b[1..];
    }
  }

  lemma AfterItemUnique(a: seq<Json>, x: string, b: seq<Json>, y: string)
    requires a != [] && b != [] && AfterItem(a, x) == AfterItem(b, y)
    ensures |a| == 1 <==> |b| == 1
    ensures if |a| == 1 then x == y else ItemsThen(a[1..], x) == ItemsThen(b[1..], y)
  {
    hide ItemsThen;
    assert (AfterItem(a, x)[0] == ']') == (|a| == 1) && (AfterItem(b, y)[0] == ']') == (|b| == 1);
    if |a| == 1 {
      SplitAlike("]", x, "]", y);
    } else {
      SplitAlike(",", ItemsThen(a[1..], x), ",", ItemsThen(b[1..], y));
    }
  }

  // ----- Objects

  /** An object's text from after its opening brace on, followed by `x`. */
  function MembersThen(members: seq<Keyed<Json>>, x: string): string { StringifyMembers(members) + "}" + x }

  /** What follows the first member. */
  function AfterMember(members: seq<Keyed<Json>>, x: string): string
    requires members != []
  {
    if |members| == 1 then "}" + x else "," + MembersThen(members[1..], x)
  }

  /** What follows the first key. */
  function AfterKey(members: seq<Keyed<Json>>, x: string): string
    requires members != []
  {
    ":" + (Stringify(members[0].value) + AfterMember(members, x))
  }

  lemma Regroup(key: string, value: string, more: string, x: string)
    ensures key + ":" + value + more + "}" + x == key + (":" + (value + (more + "}" + x)))
  {
  }

  lemma MembersStep(members: seq<Keyed<Json>>, x: string)
    ensures members == [] ==> MembersThen(members, x) == "}" + x
    ensures members != []
        ==> MembersThen(members, x) == QuoteText(members[0].key) + AfterKey(members, x) && Ends(AfterMember(members, x))
  {
    hide Stringify, QuoteText;
    if members != [] {
      var rest := StringifyMembers(members[1..]);
      var more := if |members| == 1 then "" else "," + rest;
      assert more + "}" + x == AfterMember(members, x) by {
        if |members| == 1 {
          assert "" + "}" + x == "}" + x;
        } else {
          assert "," + rest + "}" + x == "," + (rest + "}" + x);
        }
      }
      Regroup(QuoteText(members[0].key), Stringify(members[0].value), more, x);
    }
  }

  lemma MembersStart(members: seq<Keyed<Json>>, x: string)
    ensures MembersThen(members, x) != "" && (MembersThen(members, x)[0] == '}' <==> members == [])
  {
    hide MembersThen, AfterKey;
    MembersStep(members, x);
    if members != [] { assert QuoteText(members[0].key)[0] == '"'; }
  }

  lemma {:induction false} ObjectTextUnique(a: seq<Keyed<Json>>, x: string, b: seq<Keyed<Json>>, y: string)
    requires Printable(Obj(a)) && Printable(Obj(b)) && Stringify(Obj(a)) + x == Stringify(Obj(b)) + y
    ensures a == b && x == y
    decreases Obj(a), 0
  {
    hide StringifyMembers;
    assert Stringify(Obj(a)) + x == "{" + MembersThen(a, x) && Stringify(Obj(b)) + y == "{" + MembersThen(b, y);
    SplitAlike("{", MembersThen(a, x), "{", MembersThen(b, y));
    MembersUnique(a, x, b, y);
  }

  lemma {:induction false} MembersUnique(a: seq<Keyed<Json>>, x: string, b: seq<Keyed<Json>>, y: string)
    requires (forall i | 0 <= i < |a| :: Printable(a[i].value)) && (forall i | 0 <= i < |b| :: Printable(b[i].value))
    requires MembersThen(a, x) == MembersThen(b, y)
    ensures a == b && x == y
    decreases a, 2
  {
    hide Printable, Stringify, QuoteText, MembersThen, AfterMember;
    MembersStart(a, x);
    MembersStart(b, y);
    MembersStep(a, x);
    MembersStep(b, y);
    if a == [] {
      SplitAlike("}", x, "}", y);
    } else {
      StringTextUnique(a[0].key, AfterKey(a, x), b[0].key, AfterKey(b, y));
      var left, right := Stringify(a[0].value) + AfterMember(a, x), Stringify(b[0].value) + AfterMember(b, y);
      SplitAlike(":", left, ":", right);
      TextUnique(a[0].value, AfterMember(a, x), b[0].value, AfterMember(b, y));
      AfterMemberUnique(a, x, b, y);
      if |a| > 1 { MembersUnique(a[1..], x, b[1..], y); }
      assert a == [a[0]] + a[1..] && b == [b[0]] + b[1..];
    }
  }

  lemma AfterMemberUnique(a: seq<Keyed<Json>>, x: string, b: seq<Keyed<Json>>, y: string)
    requires a != [] && b != [] && AfterMember(a, x) == AfterMember(b, y)
    ensures |a| == 1 <==> |b| == 1
    ensures if |a| == 1 then x == y else MembersThen(a[1..], x) == MembersThen(b[1..], y)
  {
    hide MembersThen;
    assert (AfterMember(a, x)[0] == '}') == (|a| == 1) && (AfterMember(b, y)[0] == '}') == (|b| == 1);
    if |a| == 1 {
      SplitAlike("}", x, "}", y);
    } else {
      SplitAlike(",", MembersThen(a[1..], x), ",", MembersThen(b[1..], y));
    }
  }

  /** Different printable values have different texts. */
  lemma StringifyInjective(a: Json, b: Json)
    requires Printable(a) && Printable(b) && Stringify(a) == Stringify(b)
    ensures a == b
  {
    hide Stringify;
    assert Stringify(a) + "" == Stringify(b) + "";
    TextUnique(a, "", b, "");
  }

  // ----- Canonical text

  lemma {:induction false} CanonicalPrintable(v: Json, le: Order)
    requires TotalOrder(le) && WellFormed(v) && Canonicalize(v, le).Some?
    ensures Printable(Canonicalize(v, le).value)
    decreases v
  {
    match v
    case Arr(items) =>
      ItemsIffSupported(items, le);
      var c := CanonicalItems(items, le).value;
      forall i | 0 <= i < |c| ensures Printable(c[i]) {
        assert Canonicalize(items[i], le) == Some(c[i]);
        CanonicalPrintable(items[i], le);
      }
    case Obj(members) =>
      var c := CanonicalMembers(members, le).value;
      CanonicalMembersAre(members, le);
      SortOrders(c, le);
      var sorted := Sort(c, le);
      forall k | 0 <= k < |sorted| ensures Printable(sorted[k].value) {
        assert sorted[k] in multiset(c);
        assert sorted[k] in c && Given(members, sorted[k], le);
        var i :| Gives(members, i, sorted[k], le);
        CanonicalPrintable(members[i].value, le);
      }
    case _ =>
  }

  predicate IsJson(v: Json) { WellFormed(v) && Supported(v) }

  function CanonicalText(v: Json, le: Order): Option<string> {
    match Canonicalize(v, le)
    case None => None
    case Some(canonical) => Some(Stringify(canonical))
  }

  /**
    Two JSON values have the same canonical text exactly when they differ at most in the order of members
    and in undefined ones, at any depth.
   */
  lemma CanonicalTextEqualIffSame(a: Json, b: Json, le: Order)
    requires TotalOrder(le) && IsJson(a) && IsJson(b)
    ensures CanonicalText(a, le).Some? && CanonicalText(b, le).Some?
    ensures CanonicalText(a, le) == CanonicalText(b, le) <==> Same(a, b, {})
  {
    hide Canonicalize, Stringify, Same, WellFormed, Supported, Printable, TotalOrder;
    CanonicalIffSupported(a, le);
    CanonicalIffSupported(b, le);
    CanonicalPrintable(a, le);
    CanonicalPrintable(b, le);
    CanonicalEqualIffSame(a, b, le);
    var c, d := Canonicalize(a, le).value, Canonicalize(b, le).value;
    if Stringify(c) == Stringify(d) { StringifyInjective(c, d); }
  }
}
