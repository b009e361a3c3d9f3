/**
 Compact JSON text with sorted keys, and a reader for it.  The reader is the text's
 meaning: reading what was printed gives the value back, whatever text follows.
 */
module JsonText {
  import opened Wrappers
  import opened Text

  datatype Json =
    | JStr(s: string)
    | JBool(b: bool)
    | JArr(items: seq<Json>)
    | JObj(members: map<string, Json>)

  const HEX_DIGITS: string := "0123456789abcdef"

  // ------------------------------------------------------------------
  // Printing
  // ------------------------------------------------------------------

  function EscapeChar(c: char): string {
    if c == '\\' then "\\\\"
    else if c == '\"' then "\\\""
    else if c == '\U{8}' then "\\b"
    else if c == '\U{c}' then "\\f"
    else if c == '\n' then "\\n"
    else if c == '\r' then "\\r"
    else if c == '\t' then "\\t"
    else if c < ' ' then "\\u00" + [HEX_DIGITS[c as int / 16], HEX_DIGITS[c as int % 16]]
    else [c]
  }

  function Escape(s: string): string {
    if s == [] then "" else EscapeChar(s[0]) + Escape(s[1..])
  }

  function Quote(s: string): string {
    "\"" + Escape(s) + "\""
  }

  function Print(j: Json): string
    decreases j
  {
    match j
    case JStr(s) => Quote(s)
    case JBool(b) => if b then "true" else "false"
    case JArr(items) => "[" + (if items == [] then "]" else Print(items[0]) + PrintItems(j, 1))
    case JObj(members) =>
      var keys := Sorted(members.Keys);
      "{" + (if keys == [] then "}" else Quote(keys[0]) + ":" + Print(members[keys[0]]) + PrintMembers(j, keys[1..]))
  }

  /** The items from i on, each after a comma, and the closing bracket. */
  function PrintItems(j: Json, i: nat): string
    requires j.JArr? && i <= |j.items|
    decreases j, |j.items| - i
  {
    if i == |j.items| then "]" else "," + Print(j.items[i]) + PrintItems(j, i + 1)
  }

  /** The members under `keys`, each after a comma, and the closing brace. */
  function PrintMembers(j: Json, keys: seq<string>): string
    requires j.JObj? && forall k :: k in keys ==> k in j.members
    decreases j, |keys|
  {
    if keys == [] then "}"
    else "," + Quote(keys[0]) + ":" + Print(j.members[keys[0]]) + PrintMembers(j, keys[1..])
  }

  // ------------------------------------------------------------------
  // Reading
  // ------------------------------------------------------------------

  /** What was read, and the text after it. */
  type Read<T> = Option<(T, string)>

  function HexValue(c: char): Option<nat> {
    if '0' <= c <= '9' then Some(c as int - '0' as int)
    else if 'a' <= c <= 'f' then Some(c as int - 'a' as int + 10)
    else None
  }

  /** One character of a string, escaped or not. */
  function ReadChar(s: string): (r: Read<char>)
    ensures r.Some? ==> |r.value.1| < |s|
  {
    if s == [] || s[0] < ' ' || s[0] == '\"' then None
    else if s[0] != '\\' then Some((s[0], s[1..]))
    else if |s| < 2 then None
    else
      match s[1]
      case '\\' => Some(('\\', s[2..]))
      case '\"' => Some(('\"', s[2..]))
      case 'b' => Some(('\U{8}', s[2..]))
      case 'f' => Some(('\U{c}', s[2..]))
      case 'n' => Some(('\n', s[2..]))
      case 'r' => Some(('\r', s[2..]))
      case 't' => Some(('\t', s[2..]))
      case 'u' =>
        if |s| < 6 || s[2] != '0' || s[3] != '0' || HexValue(s[4]).None? || HexValue(s[5]).None? then None
        else Some(((16 * HexValue(s[4]).value + HexValue(s[5]).value) as char, s[6..]))
      case _ => None
  }

  /** The rest of a string, up to and including its closing quote. */
  function ReadString(s: string): (r: Read<string>)
    ensures r.Some? ==> |r.value.1| < |s|
    decreases |s|
  {
    if s == [] then None
    else if s[0] == '\"' then Some(("", s[1..]))
    else
      match ReadChar(s)
      case None => None
      case Some((c, rest)) =>
        match ReadString(rest)
        case None => None
        case Some((tail, after)) => Some(([c] + tail, after))
  }

  function ReadJson(s: string): (r: Read<Json>)
    ensures r.Some? ==> |r.value.1| < |s|
    decreases |s|, 0
  {
    if s == [] then None
    else if s[0] == '\"' then
      match ReadString(s[1..])
      case None => None
      case Some((text, rest)) => Some((JStr(text), rest))
    else if "true" <= s then Some((JBool(true), s[4..]))
    else if "false" <= s then Some((JBool(false), s[5..]))
    else if s[0] == '[' then
      if "[]" <= s then Some((JArr([]), s[2..]))
      else
        match ReadItems(s[1..])
        case None => None
        case Some((items, rest)) => Some((JArr(items), rest))
    else if s[0] == '{' then
      if "{}" <= s then Some((JObj(map[]), s[2..]))
      else
        match ReadMembers(s[1..], None)
        case None => None
        case Some((members, rest)) => Some((JObj(members), rest))
    else None
  }

  /** One or more items with commas between them, and the closing bracket. */
  function ReadItems(s: string): (r: Read<seq<Json>>)
    ensures r.Some? ==> |r.value.1| < |s|
    decreases |s|, 1
  {
    match ReadJson(s)
    case None => None
    case Some((item, rest)) =>
      if rest == [] then None
      else if rest[0] == ']' then Some(([item], rest[1..]))
      else if rest[0] != ',' then None
      else
        match ReadItems(rest[1..])
        case None => None
        case Some((items, after)) => Some(([item] + items, after))
  }

  /** A quoted key and a colon. */
  function ReadKey(s: string): (r: Read<string>)
    ensures r.Some? ==> |r.value.1| < |s|
  {
    if s == [] || s[0] != '\"' then None
    else
      match ReadString(s[1..])
      case None => None
      case Some((key, rest)) => if rest == [] || rest[0] != ':' then None else Some((key, rest[1..]))
  }

  /** One or more members with ascending keys, and the closing brace. */
  function ReadMembers(s: string, previous: Option<string>): (r: Read<map<string, Json>>)
    ensures r.Some? ==> |r.value.1| < |s|
    decreases |s|, 1
  {
    match ReadKey(s)
    case None => None
    case Some((key, rest)) =>
      if previous.Some? && !Less(previous.value, key) then None
      else
        match ReadJson(rest)
        case None => None
        case Some((value, after)) =>
          if after == [] then None
          else if after[0] == '}' then Some((map[key := value], after[1..]))
          else if after[0] != ',' then None
          else
            match ReadMembers(after[1..], Some(key))
            case None => None
            case Some((members, end)) => Some((members[key := value], end))
  }

  // ------------------------------------------------------------------
  // Reading what was printed
  // ------------------------------------------------------------------

  lemma HexDigitRead(i: nat)
    requires i < 16
    ensures HexValue(HEX_DIGITS[i]) == Some(i)
  {}

  lemma CharReadsBack(c: char, x: string)
    ensures ReadChar(EscapeChar(c) + x) == Some((c, x))
    ensures EscapeChar(c) != [] && EscapeChar(c)[0] != '\"'
  {
    var e := EscapeChar(c);
    assert |e| > 0 && (e + x)[|e|..] == x;
    assert forall i :: 0 <= i < |e| ==> (e + x)[i] == e[i];
    if c < ' ' {
      HexDigitRead(c as int / 16);
      HexDigitRead(c as int % 16);
    }
  }

  lemma {:induction false} StringReadsBack(s: string, x: string)
    ensures ReadString(Escape(s) + ("\"" + x)) == Some((s, x))
  {
    hide EscapeChar, ReadChar;
    if s == [] {
      assert Escape(s) + ("\"" + x) == "\"" + x;
    } else {
      var rest := Escape(s[1..]) + ("\"" + x);
      assert Escape(s) + ("\"" + x) == EscapeChar(s[0]) + rest;
      CharReadsBack(s[0], rest);
      StringReadsBack(s[1..], x);
      assert s == [s[0]] + s[1..];
    }
  }

  lemma QuoteReadsBack(s: string, x: string)
    ensures Quote(s) + x != [] && (Quote(s) + x)[0] == '\"' && (Quote(s) + x)[1..] == Escape(s) + ("\"" + x)
    ensures ReadString((Quote(s) + x)[1..]) == Some((s, x))
  {
    hide Escape, ReadString;
    StringReadsBack(s, x);
  }

  lemma KeyReadsBack(s: string, x: string)
    ensures ReadKey(Quote(s) + (":" + x)) == Some((s, x))
  {
    hide Quote, ReadString;
    QuoteReadsBack(s, ":" + x);
  }

  /** Reading a printed value gives it back and leaves what follows. */
  lemma {:induction false} ReadsBack(j: Json, x: string)
    ensures ReadJson(Print(j) + x) == Some((j, x))
    decreases j, 2, 0
  {
    match j
    case JStr(s) => QuoteReadsBack(s, x);
    case JBool(b) =>
      var t := Print(j);
      assert (t + x)[..|t|] == t && (t + x)[|t|..] == x;
    case JArr(items) => ArrayReadsBack(j, x);
    case JObj(members) => ObjectReadsBack(j, x);
    hide Print, ReadItems, ReadMembers;
  }

  lemma {:induction false} ArrayReadsBack(j: Json, x: string)
    requires j.JArr?
    ensures ReadJson(Print(j) + x) == Some((j, x))
    decreases j, 1, |j.items| + 1
  {
    hide Print, PrintItems, ReadItems, ReadJson;
    if j.items == [] {
      EmptyArray(j, x);
    } else {
      ItemsReadBack(j, 0, x);
      PrintOpens(j.items[0]);
      ArrayText(j, x);
      ArrayOpens(Print(j.items[0]) + (PrintItems(j, 1) + x), j.items, x);
    }
  }

  lemma EmptyArray(j: Json, x: string)
    requires j == JArr([])
    ensures ReadJson(Print(j) + x) == Some((j, x))
  {
    assert Print(j) == "[" + "]";
    hide Print;
    assert (Print(j) + x)[2..] == x;
  }

  lemma ArrayText(j: Json, x: string)
    requires j.JArr? && j.items != []
    ensures Print(j) + x == "[" + (Print(j.items[0]) + (PrintItems(j, 1) + x))
  {
    var p, m := Print(j.items[0]), PrintItems(j, 1);
    assert Print(j) == "[" + (p + m);
    hide Print, PrintItems;
    Regroup("[", p, m, x);
  }

  lemma ArrayOpens(body: string, items: seq<Json>, x: string)
    requires body != [] && body[0] != ']' && ReadItems(body) == Some((items, x))
    ensures ReadJson("[" + body) == Some((JArr(items), x))
  {
    hide ReadMembers, ReadItems, ReadString;
    assert ("[" + body)[1..] == body;
  }

  lemma Regroup(opening: string, p: string, m: string, x: string)
    ensures opening + (p + m) + x == opening + (p + (m + x))
    ensures opening + p + m + x == opening + (p + (m + x))
  {}

  lemma {:induction false} ItemsReadBack(j: Json, i: nat, x: string)
    requires j.JArr? && i < |j.items|
    ensures ReadItems(Print(j.items[i]) + (PrintItems(j, i + 1) + x)) == Some((j.items[i..], x))
    decreases j, 1, |j.items| - i
  {
    hide Print, PrintItems, ReadJson, ReadItems;
    var item, rest := j.items[i], PrintItems(j, i + 1) + x;
    ReadsBack(item, rest);
    if i + 1 == |j.items| {
      ItemsEnd(j, x);
      LastItem(Print(item) + rest, item, x);
      assert j.items[i..] == [item];
    } else {
      ItemsReadBack(j, i + 1, x);
      ItemsFollow(j, i + 1, x);
      var more := Print(j.items[i + 1]) + (PrintItems(j, i + 2) + x);
      OneMoreItem(Print(item) + rest, item, more, j.items[i + 1..], x);
      assert j.items[i..] == [item] + j.items[i + 1..];
    }
  }

  lemma ItemsEnd(j: Json, x: string)
    requires j.JArr?
    ensures PrintItems(j, |j.items|) + x == "]" + x
  {
    hide Print;
  }

  lemma ItemsFollow(j: Json, i: nat, x: string)
    requires j.JArr? && i < |j.items|
    ensures PrintItems(j, i) + x == "," + (Print(j.items[i]) + (PrintItems(j, i + 1) + x))
  {
    var p, m := Print(j.items[i]), PrintItems(j, i + 1);
    assert PrintItems(j, i) == "," + p + m;
    hide Print, PrintItems;
    Regroup(",", p, m, x);
  }

  lemma LastItem(s: string, item: Json, x: string)
    requires ReadJson(s) == Some((item, "]" + x))
    ensures ReadItems(s) == Some(([item], x))
  {
    hide ReadJson;
    assert ("]" + x)[1..] == x;
  }

  lemma OneMoreItem(s: string, item: Json, more: string, items: seq<Json>, x: string)
    requires ReadJson(s) == Some((item, "," + more)) && ReadItems(more) == Some((items, x))
    ensures ReadItems(s) == Some(([item] + items, x))
  {
    hide ReadJson;
    assert ("," + more)[1..] == more;
  }

  /** A printed value opens with a character that closes nothing. */
  lemma PrintOpens(j: Json)
    ensures Print(j) != [] && Print(j)[0] != ']'
  {
    hide Sorted, Escape;
  }

  function Restricted(m: map<string, Json>, keys: seq<string>): map<string, Json> {
    map k | k in m && k in keys :: m[k]
  }

  lemma {:induction false} ObjectReadsBack(j: Json, x: string)
    requires j.JObj?
    ensures ReadJson(Print(j) + x) == Some((j, x))
    decreases j, 1, |Sorted(j.members.Keys)| + 1
  {
    hide Print, PrintMembers, ReadMembers, ReadJson, Sorted, Quote, MembersText;
    var keys := Sorted(j.members.Keys);
    if keys == [] {
      NoKeys(j.members);
      EmptyObject(j, x);
    } else {
      MembersReadBack(j, keys, None, x);
      assert Restricted(j.members, keys) == j.members;
      ObjectText(j, keys, x);
      ObjectOpens(MembersText(j, keys, x), j.members, x);
    }
  }

  lemma EmptyObject(j: Json, x: string)
    requires j == JObj(map[]) && Sorted(j.members.Keys) == []
    ensures ReadJson(Print(j) + x) == Some((j, x))
  {
    assert Print(j) == "{" + "}";
    hide Print, Sorted;
    assert (Print(j) + x)[2..] == x;
  }

  lemma ObjectOpens(body: string, members: map<string, Json>, x: string)
    requires body != [] && body[0] == '\"' && ReadMembers(body, None) == Some((members, x))
    ensures ReadJson("{" + body) == Some((JObj(members), x))
  {
    hide ReadMembers, ReadItems, ReadString;
    assert ("{" + body)[1..] == body;
  }

  lemma NoKeys(m: map<string, Json>)
    requires Sorted(m.Keys) == []
    ensures m == map[]
  {
    assert forall k :: k in m ==> k in Sorted(m.Keys);
  }

  /** The members under `keys`, from the first key on. */
  function MembersText(j: Json, keys: seq<string>, x: string): string
    requires j.JObj? && keys != [] && forall k :: k in keys ==> k in j.members
  {
    Quote(keys[0]) + (":" + (Print(j.members[keys[0]]) + (PrintMembers(j, keys[1..]) + x)))
  }

  lemma ObjectText(j: Json, keys: seq<string>, x: string)
    requires j.JObj? && keys == Sorted(j.members.Keys) && keys != []
    ensures Print(j) + x == "{" + MembersText(j, keys, x)
    ensures MembersText(j, keys, x) != [] && MembersText(j, keys, x)[0] == '\"'
  {
    var p, m, q := Print(j.members[keys[0]]), PrintMembers(j, keys[1..]), Quote(keys[0]);
    assert Print(j) == "{" + (q + ":" + p + m);
    assert q[0] == '\"';
    hide Print, PrintMembers, Quote, Sorted;
    RegroupMember("{", q, p, m, x);
  }

  lemma RegroupMember(opening: string, q: string, p: string, m: string, x: string)
    ensures opening + (q + ":" + p + m) + x == opening + (q + (":" + (p + (m + x))))
    ensures opening + q + ":" + p + m + x == opening + (q + (":" + (p + (m + x))))
  {}

  lemma {:induction false} MembersReadBack(j: Json, keys: seq<string>, previous: Option<string>, x: string)
    requires j.JObj? && keys != [] && Ascending(keys) && forall k :: k in keys ==> k in j.members
    requires previous.Some? ==> Less(previous.value, keys[0])
    ensures ReadMembers(MembersText(j, keys, x), previous) == Some((Restricted(j.members, keys), x))
    decreases j, 1, |keys|
  {
    var key, value, tail := keys[0], j.members[keys[0]], keys[1..];
    var rest := PrintMembers(j, tail) + x;
    hide Print, ReadJson, ReadKey, Quote, Less, ReadMembers;
    KeyReadsBack(key, Print(value) + rest);
    ReadsBack(value, rest);
    var s := MembersText(j, keys, x);
    if tail == [] {
      assert rest == "}" + x;
      LastMember(s, previous, key, Print(value) + rest, value, x);
      assert Restricted(j.members, keys) == map[key := value];
    } else {
      assert Ascending(tail) && Less(key, tail[0]);
      MembersReadBack(j, tail, Some(key), x);
      MembersFollow(j, tail, x);
      OneMoreMember(s, previous, key, Print(value) + rest, value, MembersText(j, tail, x), Restricted(j.members, tail), x);
      RestrictedCons(j.members, keys);
    }
  }

  lemma RestrictedCons(m: map<string, Json>, keys: seq<string>)
    requires keys != [] && keys[0] in m
    ensures Restricted(m, keys) == Restricted(m, keys[1..])[keys[0] := m[keys[0]]]
  {
    assert keys == [keys[0]] + keys[1..];
  }

  lemma LastMember(s: string, previous: Option<string>, key: string, rest: string, value: Json, x: string)
    requires previous.Some? ==> Less(previous.value, key)
    requires ReadKey(s) == Some((key, rest)) && ReadJson(rest) == Some((value, "}" + x))
    ensures ReadMembers(s, previous) == Some((map[key := value], x))
  {
    hide ReadKey, ReadJson, Less;
    assert ("}" + x)[1..] == x;
  }

  lemma OneMoreMember(s: string, previous: Option<string>, key: string, rest: string, value: Json, more: string,
                      members: map<string, Json>, x: string)
    requires previous.Some? ==> Less(previous.value, key)
    requires ReadKey(s) == Some((key, rest)) && ReadJson(rest) == Some((value, "," + more))
    requires ReadMembers(more, Some(key)) == Some((members, x))
    ensures ReadMembers(s, previous) == Some((members[key := value], x))
  {
    hide ReadKey, ReadJson, Less;
    assert ("," + more)[1..] == more;
  }

  lemma MembersFollow(j: Json, keys: seq<string>, x: string)
    requires j.JObj? && keys != [] && forall k :: k in keys ==> k in j.members
    ensures PrintMembers(j, keys) + x == "," + MembersText(j, keys, x)
  {
    var p, m, q := Print(j.members[keys[0]]), PrintMembers(j, keys[1..]), Quote(keys[0]);
    assert PrintMembers(j, keys) == "," + q + ":" + p + m;
    hide Quote, Print, PrintMembers;
    RegroupMember(",", q, p, m, x);
  }

  /** A printed value can be read off the front of any text. */
  lemma PrintUnambiguous(a: Json, b: Json, x: string, y: string)
    requires Print(a) + x == Print(b) + y
    ensures a == b && x == y
  {
    hide Print, ReadJson;
    ReadsBack(a, x);
    ReadsBack(b, y);
  }
}
