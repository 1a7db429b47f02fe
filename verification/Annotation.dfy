/** The string functions of Go's `strings` package that the annotation code calls. */
module Text {
  // ----- Splitting and joining -----

  function Split(s: string, sep: char): (pieces: seq<string>)
    ensures pieces != []
  {
    if s == "" then [""]
    else
      var rest := Split(s[1..], sep);
      if s[0] == sep then [""] + rest else [[s[0]] + rest[0]] + rest[1..]
  }

  function Join(items: seq<string>, sep: char): string {
    if items == [] then ""
    else if |items| == 1 then items[0]
    else Join(items[..|items| - 1], sep) + [sep] + items[|items| - 1]
  }

  lemma {:induction false} SplitAppend(s: string, last: string, sep: char)
    requires sep !in last
    ensures Split(s + [sep] + last, sep) == Split(s, sep) + [last]
  {
    var whole := s + [sep] + last;
    if s == "" {
      assert whole[1..] == last;
      SplitOne(last, sep);
    } else {
      assert whole[1..] == s[1..] + [sep] + last;
      SplitAppend(s[1..], last, sep);
    }
  }

  lemma {:induction false} SplitOne(s: string, sep: char)
    requires sep !in s
    ensures Split(s, sep) == [s]
  {
    if s != "" {
      assert s[0] in s && s == [s[0]] + s[1..];
      SplitOne(s[1..], sep);
    }
  }

  /** Splitting undoes joining, for items without the separator. */
  lemma {:induction false} SplitJoin(items: seq<string>, sep: char)
    requires items != [] && forall item | item in items :: sep !in item
    ensures Split(Join(items, sep), sep) == items
  {
    var n := |items| - 1;
    if n == 0 {
      SplitOne(items[0], sep);
    } else {
      SplitJoin(items[..n], sep);
      SplitAppend(Join(items[..n], sep), items[n], sep);
      assert items == items[..n] + [items[n]];
    }
  }

  lemma {:induction false} JoinFront(first: string, rest: seq<string>, sep: char)
    requires rest != []
    ensures Join([first] + rest, sep) == first + [sep] + Join(rest, sep)
  {
    var n := |rest| - 1;
    assert ([first] + rest)[..n + 1] == [first] + rest[..n];
    if n > 0 {
      JoinFront(first, rest[..n], sep);
    }
  }

  /** A character in front of the first item is a character in front of the text. */
  lemma JoinGrow(c: char, items: seq<string>, sep: char)
    requires items != []
    ensures Join([[c] + items[0]] + items[1..], sep) == [c] + Join(items, sep)
  {
    if |items| > 1 {
      JoinFront([c] + items[0], items[1..], sep);
      JoinFront(items[0], items[1..], sep);
      assert items == [items[0]] + items[1..];
    }
  }

  /** Joining undoes splitting, for any text. */
  lemma {:induction false} JoinSplit(s: string, sep: char)
    ensures Join(Split(s, sep), sep) == s
  {
    hide Join;
    if s == "" {
      JoinOne("", sep);
    } else {
      var rest := Split(s[1..], sep);
      JoinSplit(s[1..], sep);
      assert s == [s[0]] + s[1..];
      if s[0] == sep {
        JoinFront("", rest, sep);
      } else {
        JoinGrow(s[0], rest, sep);
      }
    }
  }

  lemma JoinOne(s: string, sep: char)
    ensures Join([s], sep) == s
  {
  }

  /** No piece holds the separator. */
  lemma {:induction false} PiecesFree(s: string, sep: char)
    ensures forall piece | piece in Split(s, sep) :: sep !in piece
  {
    if s != "" {
      PiecesFree(s[1..], sep);
    }
  }

  // ----- Trimming -----

  /** The characters `unicode.IsSpace` accepts. */
  predicate IsSpace(c: char) {
    || c in "\t\n\U{b}\U{c}\r \U{85}\U{a0}\U{1680}\U{2028}\U{2029}\U{202f}\U{205f}\U{3000}"
    || '\U{2000}' <= c <= '\U{200a}'
  }

  function TrimLeft(s: string): string {
    if s != "" && IsSpace(s[0]) then TrimLeft(s[1..]) else s
  }

  function TrimRight(s: string): string {
    if s != "" && IsSpace(s[|s| - 1]) then TrimRight(s[..|s| - 1]) else s
  }

  function TrimSpace(s: string): string {
    TrimRight(TrimLeft(s))
  }

  lemma {:induction false} TrimLeftMembers(s: string)
    ensures forall c | c in TrimLeft(s) :: c in s
  {
    hide IsSpace;
    if s != "" && IsSpace(s[0]) {
      TrimLeftMembers(s[1..]);
    }
  }

  lemma {:induction false} TrimRightMembers(s: string)
    ensures forall c | c in TrimRight(s) :: c in s
  {
    hide IsSpace;
    if s != "" && IsSpace(s[|s| - 1]) {
      TrimRightMembers(s[..|s| - 1]);
    }
  }

  lemma TrimNothing(s: string)
    requires s == "" || (!IsSpace(s[0]) && !IsSpace(s[|s| - 1]))
    ensures TrimSpace(s) == s
  {
  }

  lemma TrimMembers(s: string)
    ensures forall c | c in TrimSpace(s) :: c in s
  {
    TrimLeftMembers(s);
    TrimRightMembers(TrimLeft(s));
  }

  // ----- Order -----

  /** Go's `<` on strings. The order of UTF-8 bytes is the order of code points. */
  predicate Before(a: string, b: string) {
    b != "" && (a == "" || a[0] < b[0] || (a[0] == b[0] && Before(a[1..], b[1..])))
  }

  lemma {:induction false} BeforeTransitive(a: string, b: string, c: string)
    requires Before(a, b) && Before(b, c)
    ensures Before(a, c)
  {
    if a != "" && a[0] == b[0] == c[0] {
      BeforeTransitive(a[1..], b[1..], c[1..]);
    }
  }

  lemma {:induction false} BeforeTotal(a: string, b: string)
    ensures !(Before(a, b) && Before(b, a))
    ensures Before(a, b) || Before(b, a) <==> a != b
  {
    if a != "" && b != "" && a[0] == b[0] {
      BeforeTotal(a[1..], b[1..]);
      assert a == [a[0]] + a[1..] && b == [b[0]] + b[1..];
    }
  }
}

/** The network annotation: the text written on a pod, and the parser that reads it back. */
module Annotation {
  import opened Wrappers
  import opened Text

  datatype Error = EmptyText | BadJson | BadSlash | BadAt | BadLabel | BadInterface | BadConfig

  /** One selected network. */
  datatype Element = Element(namespace: string, name: string, iface: string)

  // ----- Parser -----

  predicate Alphanumeric(c: char) {
    'a' <= c <= 'z' || '0' <= c <= '9'
  }

  /** A DNS-1123 label. */
  predicate IsLabel(s: string) {
    && s != "" && Alphanumeric(s[0]) && Alphanumeric(s[|s| - 1])
    && forall c | c in s :: c == '-' || Alphanumeric(c)
  }

  /** The length in bytes. */
  function Bytes(s: string): nat {
    if s == "" then 0
    else Bytes(s[1..]) + if s[0] < '\U{80}' then 1 else if s[0] < '\U{800}' then 2 else if s[0] < '\U{10000}' then 3 else 4
  }

  predicate InterfaceOk(s: string) {
    Bytes(s) <= 15 && forall c | c in s :: c !in " \t\n\U{b}\U{c}\r/"
  }

  /** `ParsePodNetworkObjectName`. */
  function ParseObjectName(text: string): Result<Element, Error> {
    var slashItems := Split(text, '/');
    if |slashItems| > 2 then Err(BadSlash)
    else
      var ns := if |slashItems| == 2 then TrimSpace(slashItems[0]) else "";
      var atItems := Split(slashItems[|slashItems| - 1], '@');
      if |atItems| > 2 then Err(BadAt)
      else
        var name := TrimSpace(atItems[0]);
        var iface := if |atItems| == 2 then TrimSpace(atItems[1]) else "";
        if (ns != "" && !IsLabel(ns)) || (name != "" && !IsLabel(name)) then Err(BadLabel)
        else if !InterfaceOk(iface) then Err(BadInterface)
        else Ok(Element(ns, name, iface))
  }

  /** The items in order; the first bad one is the error. */
  function ParseItems(items: seq<string>): Result<seq<Element>, Error> {
    if items == [] then Ok([])
    else
      var n := |items| - 1;
      var init := ParseItems(items[..n]);
      if init.Err? then init
      else
        var last := ParseObjectName(TrimSpace(items[n]));
        if last.Err? then Err(last.error) else Ok(init.value + [last.value])
  }

  function WithNamespace(e: Element, defaultNamespace: string): Element {
    if e.namespace == "" then e.(namespace := defaultNamespace) else e
  }

  function Filled(es: seq<Element>, defaultNamespace: string): (r: seq<Element>)
    ensures |r| == |es| && forall i :: 0 <= i < |es| ==> r[i] == WithNamespace(es[i], defaultNamespace)
  {
    seq(|es|, i requires 0 <= i < |es| => WithNamespace(es[i], defaultNamespace))
  }

  predicate LooksLikeJson(text: string) {
    exists c :: c in TrimSpace(text) && c in "[{\""
  }

  /** What the annotation means. `decode` stands for the JSON form: decoding and checking its elements. */
  function Parsed(text: string, defaultNamespace: string, decode: string -> Result<seq<Element>, Error>): Result<seq<Element>, Error> {
    if text == "" then Err(EmptyText)
    else
      var es := if LooksLikeJson(text) then decode(text) else ParseItems(Split(text, ','));
      if es.Err? then es else Ok(Filled(es.value, defaultNamespace))
  }

  /** `ParsePodNetworkAnnotation`. */
  method ParsePodNetworkAnnotation(text: string, defaultNamespace: string, decode: string -> Result<seq<Element>, Error>)
    returns (r: Result<seq<Element>, Error>)
    ensures r == Parsed(text, defaultNamespace, decode)
  {
    hide ParseItems, LooksLikeJson;
    if text == "" {
      return Err(EmptyText);
    }
    if LooksLikeJson(text) {
      r := decode(text);
    } else {
      r := ParseNameList(text);
    }
    if r.Ok? {
      var networks := FillNamespaces(r.value, defaultNamespace);
      r := Ok(networks);
    }
  }

  method ParseNameList(text: string) returns (r: Result<seq<Element>, Error>)
    ensures r == ParseItems(Split(text, ','))
  {
    hide ParseObjectName, Split;
    var networks: seq<Element> := [];
    var items := Split(text, ',');
    for i := 0 to |items|
      invariant ParseItems(items[..i]) == Ok(networks)
    {
      assert items[..i + 1][..i] == items[..i];
      var e := ParseObjectName(TrimSpace(items[i]));
      if e.Err? {
        ErrorStays(items, i + 1);
        return Err(e.error);
      }
      networks := networks + [e.value];
    }
    assert items[..|items|] == items;
    return Ok(networks);
  }

  method FillNamespaces(es: seq<Element>, defaultNamespace: string) returns (networks: seq<Element>)
    ensures networks == Filled(es, defaultNamespace)
  {
    networks := es;
    for i := 0 to |networks|
      invariant |networks| == |es|
      invariant forall k :: 0 <= k < i ==> networks[k] == WithNamespace(es[k], defaultNamespace)
      invariant forall k :: i <= k < |es| ==> networks[k] == es[k]
    {
      if networks[i].namespace == "" {
        networks := networks[i := networks[i].(namespace := defaultNamespace)];
      }
    }
  }

  /** An error in the first items is the error of all. */
  lemma {:induction false} ErrorStays(items: seq<string>, k: nat)
    requires k <= |items| && ParseItems(items[..k]).Err?
    ensures ParseItems(items) == ParseItems(items[..k])
  {
    hide ParseObjectName;
    if k == |items| {
      assert items[..k] == items;
    } else {
      var n := |items| - 1;
      assert items[..n][..k] == items[..k];
      ErrorStays(items[..n], k);
    }
  }

  /** What a parsed name always is: empty parts or labels, and a usable interface name. */
  lemma ObjectNameMeaning(text: string)
    ensures var r := ParseObjectName(text);
      r.Ok? ==>
        && (r.value.namespace == "" || IsLabel(r.value.namespace))
        && (r.value.name == "" || IsLabel(r.value.name)) && InterfaceOk(r.value.iface)
  {
  }

  /** Parsing succeeds with one element for each item, the one its text gives. */
  lemma {:induction false} ItemsMeaning(items: seq<string>)
    ensures var r := ParseItems(items); r.Ok? ==> |r.value| == |items| && EachParsed(items, r.value)
  {
    hide ParseObjectName, TrimSpace;
    if items != [] {
      var n := |items| - 1;
      ItemsMeaning(items[..n]);
      if ParseItems(items).Ok? {
        EachParsedStep(items, ParseItems(items).value);
      }
    }
  }

  predicate EachParsed(items: seq<string>, es: seq<Element>)
    requires |items| == |es|
  {
    forall i :: 0 <= i < |items| ==> ParseObjectName(TrimSpace(items[i])) == Ok(es[i])
  }

  lemma EachParsedStep(items: seq<string>, es: seq<Element>)
    requires |items| == |es| > 0
    ensures var n := |items| - 1;
      EachParsed(items, es) <==> EachParsed(items[..n], es[..n]) && ParseObjectName(TrimSpace(items[n])) == Ok(es[n])
  {
    hide ParseObjectName, TrimSpace;
    var n := |items| - 1;
    if EachParsed(items[..n], es[..n]) {
      assert forall i | 0 <= i < n :: items[..n][i] == items[i] && es[..n][i] == es[i];
    }
  }

  lemma {:induction false} AllItemsParse(items: seq<string>, es: seq<Element>)
    requires |items| == |es| && EachParsed(items, es)
    ensures ParseItems(items) == Ok(es)
  {
    hide ParseObjectName, TrimSpace, EachParsed;
    if items != [] {
      var n := |items| - 1;
      EachParsedStep(items, es);
      AllItemsParse(items[..n], es[..n]);
      assert es == es[..n] + [es[n]];
    }
  }

  // ----- Printer -----

  /** A multus configuration: its sort key, and whether its resource may be injected. */
  datatype Config = Config(namespace: string, name: string, key: string, injectable: bool) {
    function FullName(): string { namespace + "/" + name }
  }

  function FullNames(cs: seq<Config>): (r: seq<string>)
    ensures |r| == |cs| && forall i :: 0 <= i < |cs| ==> r[i] == cs[i].FullName()
  {
    seq(|cs|, i requires 0 <= i < |cs| => cs[i].FullName())
  }

  function Printed(cs: seq<Config>): string {
    Join(FullNames(cs), ',')
  }

  /** What the configurations select. */
  function Selections(cs: seq<Config>): (r: seq<Element>)
    ensures |r| == |cs| && forall i :: 0 <= i < |cs| ==> r[i] == Element(cs[i].namespace, cs[i].name, "")
  {
    seq(|cs|, i requires 0 <= i < |cs| => Element(cs[i].namespace, cs[i].name, ""))
  }

  predicate Named(c: Config) {
    IsLabel(c.namespace) && IsLabel(c.name)
  }

  /** No character in `s` is one of those that mark JSON. */
  predicate Plain(s: string) {
    forall c | c in s :: c !in "[{\""
  }

  lemma LabelChars(s: string)
    requires IsLabel(s)
    ensures TrimSpace(s) == s && Plain(s) && ',' !in s && '/' !in s && '@' !in s
  {
    hide IsSpace, TrimSpace;
    AlphanumericNotSpace(s[0]);
    AlphanumericNotSpace(s[|s| - 1]);
    TrimNothing(s);
  }

  lemma AlphanumericNotSpace(c: char)
    requires Alphanumeric(c)
    ensures !IsSpace(c)
  {
  }

  lemma FullNameParses(c: Config)
    requires Named(c)
    ensures ',' !in c.FullName() && TrimSpace(c.FullName()) == c.FullName()
    ensures ParseObjectName(c.FullName()) == Ok(Element(c.namespace, c.name, ""))
  {
    LabelChars(c.namespace);
    LabelChars(c.name);
    FullNameTrims(c);
    assert c.FullName() == c.namespace + ['/'] + c.name;
    SplitOne(c.namespace, '/');
    SplitAppend(c.namespace, c.name, '/');
    SplitOne(c.name, '@');
  }

  lemma FullNameTrims(c: Config)
    requires Named(c)
    ensures TrimSpace(c.FullName()) == c.FullName()
  {
    hide IsSpace, TrimSpace;
    var s := c.FullName();
    assert s[0] == c.namespace[0] && s[|s| - 1] == c.name[|c.name| - 1];
    AlphanumericNotSpace(s[0]);
    AlphanumericNotSpace(s[|s| - 1]);
    TrimNothing(s);
  }

  lemma PlainJoined(a: string, b: string)
    requires Plain(a) && Plain(b)
    ensures Plain(a + [','] + b)
  {
  }

  lemma {:induction false} JoinPlain(items: seq<string>)
    requires forall item | item in items :: Plain(item)
    ensures Plain(Join(items, ','))
  {
    if items != [] {
      var n := |items| - 1;
      assert items[n] in items;
      if n > 0 {
        JoinPlain(items[..n]);
        PlainJoined(Join(items[..n], ','), items[n]);
      }
    }
  }

  lemma PrintedPlain(cs: seq<Config>)
    requires forall c | c in cs :: Plain(c.namespace) && Plain(c.name)
    ensures !LooksLikeJson(Printed(cs))
  {
    forall item | item in FullNames(cs) ensures Plain(item) {
      var i :| 0 <= i < |cs| && FullNames(cs)[i] == item;
      assert cs[i] in cs;
    }
    JoinPlain(FullNames(cs));
    TrimMembers(Printed(cs));
  }

  /** Labels survive: the parser reads back what was printed, in order, with no interface names. */
  lemma RoundTrip(cs: seq<Config>, defaultNamespace: string, decode: string -> Result<seq<Element>, Error>)
    requires cs != [] && forall c | c in cs :: Named(c)
    ensures Parsed(Printed(cs), defaultNamespace, decode) == Ok(Selections(cs))
  {
    hide ParseObjectName, LooksLikeJson, IsLabel;
    var items := FullNames(cs);
    forall i | 0 <= i < |cs|
      ensures ',' !in items[i] && ParseObjectName(TrimSpace(items[i])) == Ok(Selections(cs)[i])
      ensures Plain(cs[i].namespace) && Plain(cs[i].name) && cs[i].namespace != ""
    {
      assert cs[i] in cs;
      FullNameParses(cs[i]);
      LabelChars(cs[i].namespace);
      LabelChars(cs[i].name);
      LabelNotEmpty(cs[i].namespace);
    }
    PrintedPlain(cs);
    SplitJoin(items, ',');
    AllItemsParse(items, Selections(cs));
    assert Filled(Selections(cs), defaultNamespace) == Selections(cs);
    PrintedNotEmpty(cs);
  }

  lemma LabelNotEmpty(s: string)
    requires IsLabel(s)
    ensures s != ""
  {
  }

  lemma PrintedNotEmpty(cs: seq<Config>)
    requires cs != []
    ensures Printed(cs) != ""
  {
  }

  /** And only labels survive: of configurations with both parts set and no JSON mark in them, exactly those
      with labels for names are read back. A name with a dot, which Kubernetes allows, is not. */
  lemma RoundTripExactly(cs: seq<Config>, defaultNamespace: string, decode: string -> Result<seq<Element>, Error>)
    requires cs != [] && IsLabel(defaultNamespace)
    requires forall c | c in cs :: c.namespace != "" && c.name != "" && Plain(c.namespace) && Plain(c.name)
    ensures Parsed(Printed(cs), defaultNamespace, decode) == Ok(Selections(cs)) <==> forall c | c in cs :: Named(c)
  {
    hide ParseObjectName, LooksLikeJson, IsLabel, Printed;
    if forall c | c in cs :: Named(c) {
      RoundTrip(cs, defaultNamespace, decode);
    }
    PrintedPlain(cs);
    if Parsed(Printed(cs), defaultNamespace, decode) == Ok(Selections(cs)) {
      var items := Split(Printed(cs), ',');
      ItemsMeaning(items);
      var es := ParseItems(items).value;
      forall i | 0 <= i < |cs| ensures Named(cs[i]) {
        ObjectNameMeaning(TrimSpace(items[i]));
        assert Selections(cs)[i] == WithNamespace(es[i], defaultNamespace);
        assert cs[i] in cs;
      }
    }
  }

  // ----- Order -----

  /** The comparison `sortMultusConfigs` sorts by. */
  predicate Precedes(a: Config, b: Config) {
    if a.key != b.key then Before(a.key, b.key) else Before(a.FullName(), b.FullName())
  }

  function Insert(c: Config, sorted: seq<Config>): seq<Config> {
    if sorted == [] || !Precedes(sorted[0], c) then [c] + sorted else [sorted[0]] + Insert(c, sorted[1..])
  }

  /** The stable library sort, as an insertion sort from the back. */
  function Sorted(cs: seq<Config>): seq<Config> {
    if cs == [] then [] else Insert(cs[0], Sorted(cs[1..]))
  }

  /** Configurations of one cluster: no two have the same full name. */
  predicate Distinct(cs: seq<Config>) {
    forall i, j :: 0 <= i < j < |cs| ==> cs[i].FullName() != cs[j].FullName()
  }

  predicate Ascending(cs: seq<Config>) {
    forall i, j :: 0 <= i < j < |cs| ==> Precedes(cs[i], cs[j])
  }

  lemma PrecedesTotal(a: Config, b: Config)
    ensures !(Precedes(a, b) && Precedes(b, a))
    ensures a.FullName() != b.FullName() ==> Precedes(a, b) || Precedes(b, a)
  {
    BeforeTotal(a.key, b.key);
    BeforeTotal(a.FullName(), b.FullName());
  }

  lemma PrecedesTransitive(a: Config, b: Config, c: Config)
    requires Precedes(a, b) && Precedes(b, c)
    ensures Precedes(a, c)
  {
    if a.key != b.key && b.key != c.key {
      BeforeTransitive(a.key, b.key, c.key);
      BeforeTotal(a.key, b.key);
    } else if a.key == b.key == c.key {
      BeforeTransitive(a.FullName(), b.FullName(), c.FullName());
    }
  }

  lemma {:induction false} InsertMembers(c: Config, sorted: seq<Config>)
    ensures forall d :: d in Insert(c, sorted) <==> d == c || d in sorted
  {
    hide Precedes;
    if sorted != [] && Precedes(sorted[0], c) {
      InsertMembers(c, sorted[1..]);
      assert sorted == [sorted[0]] + sorted[1..];
    }
  }

  lemma {:induction false} InsertAscends(c: Config, sorted: seq<Config>)
    requires Ascending(sorted) && forall d | d in sorted :: d.FullName() != c.FullName()
    ensures Ascending(Insert(c, sorted))
  {
    hide Precedes;
    if sorted != [] {
      var first, rest := sorted[0], sorted[1..];
      PrecedesTotal(first, c);
      assert forall d | d in rest :: d in sorted && Precedes(first, d);
      if Precedes(first, c) {
        InsertAscends(c, rest);
        InsertMembers(c, rest);
        AscendingFront(first, Insert(c, rest));
      } else {
        assert first in sorted && Precedes(c, first);
        forall d | d in sorted ensures Precedes(c, d) {
          if d != first {
            assert sorted == [first] + rest;
            PrecedesTransitive(c, first, d);
          }
        }
        AscendingFront(c, sorted);
      }
    }
  }

  lemma AscendingFront(c: Config, rest: seq<Config>)
    requires Ascending(rest) && forall d | d in rest :: Precedes(c, d)
    ensures Ascending([c] + rest)
  {
  }

  /** The sort keeps the configurations and puts them in order. */
  lemma {:induction false} SortedMeaning(cs: seq<Config>)
    ensures forall d :: d in Sorted(cs) <==> d in cs
    ensures |Sorted(cs)| == |cs|
    ensures Distinct(cs) ==> Ascending(Sorted(cs))
  {
    hide Insert, Ascending;
    if cs == [] {
      NothingAscends();
    } else {
      var rest := Sorted(cs[1..]);
      SortedMeaning(cs[1..]);
      InsertMembers(cs[0], rest);
      InsertLength(cs[0], rest);
      assert cs == [cs[0]] + cs[1..];
      if Distinct(cs) {
        InsertAscends(cs[0], rest);
      }
    }
  }

  lemma NothingAscends()
    ensures Ascending([])
  {
  }

  lemma {:induction false} InsertLength(c: Config, sorted: seq<Config>)
    ensures |Insert(c, sorted)| == |sorted| + 1
  {
    hide Precedes;
    if sorted != [] && Precedes(sorted[0], c) {
      InsertLength(c, sorted[1..]);
    }
  }

  lemma EmptyTogether(a: seq<Config>, b: seq<Config>)
    requires forall d :: d in a <==> d in b
    ensures a == [] <==> b == []
  {
    if a != [] { assert a[0] in b; }
    if b != [] { assert b[0] in a; }
  }

  lemma {:induction false} AscendingUnique(a: seq<Config>, b: seq<Config>)
    requires Ascending(a) && Ascending(b) && forall d :: d in a <==> d in b
    ensures a == b
  {
    hide Precedes;
    EmptyTogether(a, b);
    if a != [] {
      assert a[0] in b;
      assert b[0] in a;
      PrecedesTotal(a[0], b[0]);
      assert a[0] == b[0];
      TailMembers(a);
      TailMembers(b);
      AscendingUnique(a[1..], b[1..]);
      assert a == [a[0]] + a[1..] && b == [b[0]] + b[1..];
    }
  }

  lemma TailMembers(a: seq<Config>)
    requires a != [] && Ascending(a)
    ensures Ascending(a[1..]) && forall d :: d in a[1..] <==> d in a && d != a[0]
  {
    hide Precedes;
    assert a == [a[0]] + a[1..];
    forall d | d in a[1..] ensures d != a[0] {
      assert Precedes(a[0], d);
      PrecedesTotal(d, d);
    }
  }

  /** The annotation does not depend on the order the configurations are listed in. */
  lemma OrderDoesNotMatter(a: seq<Config>, b: seq<Config>)
    requires Distinct(a) && Distinct(b) && forall d :: d in a <==> d in b
    ensures Sorted(a) == Sorted(b)
  {
    SortedMeaning(a);
    SortedMeaning(b);
    AscendingUnique(Sorted(a), Sorted(b));
  }

  // ----- Injection -----

  const NETWORKS := "k8s.v1.cni.cncf.io/networks"

  class Pod {
    var annotations: map<string, string>

    /** `injectPodNetwork`: a configuration that cannot be injected leaves the pod as it was. */
    method InjectPodNetwork(configs: seq<Config>) returns (r: Result<(), Error>)
      modifies this
      ensures r.Ok? <==> forall c | c in configs :: c.injectable
      ensures annotations ==
        if r.Err? || configs == [] then old(annotations)
        else old(annotations)[NETWORKS := Printed(Sorted(configs))]
    {
      hide Sorted, Precedes;
      var items := Sorted(configs);
      SortedMeaning(configs);
      var value := "";
      for i := 0 to |items|
        invariant value == Printed(items[..i]) && annotations == old(annotations)
        invariant forall k :: 0 <= k < i ==> items[k].injectable
      {
        var c := items[i];
        if !c.injectable {
          assert c in configs;
          return Err(BadConfig);
        }
        PrintedStep(items, i);
        if value == "" {
          value := c.FullName();
        } else {
          value := value + "," + c.FullName();
        }
      }
      assert items[..|items|] == items;
      if value != "" {
        annotations := annotations[NETWORKS := value];
      }
      if configs != [] {
        PrintedNotEmpty(items);
      }
      return Ok(());
    }
  }

  lemma PrintedStep(cs: seq<Config>, i: nat)
    requires i < |cs|
    ensures Printed(cs[..i]) == "" <==> i == 0
    ensures Printed(cs[..i + 1]) == if i == 0 then cs[i].FullName() else Printed(cs[..i]) + "," + cs[i].FullName()
  {
    assert FullNames(cs[..i + 1])[..i] == FullNames(cs[..i]);
    if i > 0 {
      PrintedNotEmpty(cs[..i]);
    }
  }

  /** From pod to parser: whatever order the configurations came in, the annotation reads back as exactly
      those configurations, in sorted order. */
  lemma InjectedReadsBack(configs: seq<Config>, defaultNamespace: string, decode: string -> Result<seq<Element>, Error>)
    requires configs != [] && forall c | c in configs :: Named(c)
    ensures Parsed(Printed(Sorted(configs)), defaultNamespace, decode) == Ok(Selections(Sorted(configs)))
    ensures forall e :: e in Selections(Sorted(configs)) <==> e in Selections(configs)
  {
    hide Sorted, Named, Parsed, Printed;
    SortedMeaning(configs);
    RoundTrip(Sorted(configs), defaultNamespace, decode);
    SelectionsMembers(configs, Sorted(configs));
    SelectionsMembers(Sorted(configs), configs);
  }

  lemma SelectionsMembers(a: seq<Config>, b: seq<Config>)
    requires forall c | c in a :: c in b
    ensures forall e | e in Selections(a) :: e in Selections(b)
  {
    forall e | e in Selections(a) ensures e in Selections(b) {
      var i :| 0 <= i < |a| && Selections(a)[i] == e;
      assert a[i] in b;
      var j :| 0 <= j < |b| && b[j] == a[i];
      assert Selections(b)[j] == e;
    }
  }
}
