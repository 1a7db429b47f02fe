/** The annotation text part by part: which text stands for which network, every error with its condition, and
    the order of what is written. */
module AnnotationForms {
  import opened Wrappers
  import opened Text
  import opened Annotation

  // ----- Trimming -----

  predicate Blank(s: string) {
    forall c | c in s :: IsSpace(c)
  }

  predicate Trimmed(s: string) {
    s == "" || (!IsSpace(s[0]) && !IsSpace(s[|s| - 1]))
  }

  /** Trimming drops blanks at both ends and nothing else. */
  lemma TrimExactly(s: string) returns (left: string, right: string)
    ensures s == left + TrimSpace(s) + right && Blank(left) && Blank(right) && Trimmed(TrimSpace(s))
  {
    hide IsSpace;
    left := TrimLeftDrops(s);
    right := TrimRightDrops(TrimLeft(s));
    assert s == left + (TrimSpace(s) + right) == left + TrimSpace(s) + right;
    if TrimSpace(s) != "" {
      assert TrimSpace(s)[0] == TrimLeft(s)[0];
    }
  }

  lemma {:induction false} TrimLeftDrops(s: string) returns (left: string)
    ensures s == left + TrimLeft(s) && Blank(left) && (TrimLeft(s) != "" ==> !IsSpace(TrimLeft(s)[0]))
  {
    hide IsSpace;
    if s != "" && IsSpace(s[0]) {
      var rest := TrimLeftDrops(s[1..]);
      left := [s[0]] + rest;
      assert s == [s[0]] + s[1..];
    } else {
      left := "";
    }
  }

  lemma {:induction false} TrimRightDrops(s: string) returns (right: string)
    ensures s == TrimRight(s) + right && Blank(right) && (TrimRight(s) != "" ==> !IsSpace(TrimRight(s)[|TrimRight(s)| - 1]))
  {
    hide IsSpace;
    if s != "" && IsSpace(s[|s| - 1]) {
      var n := |s| - 1;
      var t := TrimRight(s[..n]);
      var rest := TrimRightDrops(s[..n]);
      right := rest + [s[n]];
      assert s == s[..n] + [s[n]] && (t + rest) + [s[n]] == t + (rest + [s[n]]);
    } else {
      right := "";
    }
  }

  lemma TrimOfTrimmed(s: string)
    requires Trimmed(s)
    ensures TrimSpace(s) == s
  {
    TrimNothing(s);
  }

  // ----- One network -----

  predicate PartOk(s: string) {
    s == "" || IsLabel(s)
  }

  /** A label, by the codes of its characters: lower case, digits and hyphens, no hyphen at either end. */
  lemma LabelExactly(s: string)
    ensures IsLabel(s) <==>
      && s != "" && s[0] as int != 0x2D && s[|s| - 1] as int != 0x2D
      && forall c | c in s :: 0x61 <= c as int <= 0x7A || 0x30 <= c as int <= 0x39 || c as int == 0x2D
  {
    if s != "" {
      assert s[0] in s && s[|s| - 1] in s;
    }
  }

  /** In plain ASCII an interface name has at most 15 characters, none of them a blank or a slash. */
  lemma InterfaceExactly(s: string)
    requires forall c | c in s :: c < '\U{80}'
    ensures InterfaceOk(s) <==> |s| <= 15 && forall c | c in s :: c != '/' && c != ' ' && !('\t' <= c <= '\r')
  {
    AsciiBytes(s);
  }

  lemma {:induction false} AsciiBytes(s: string)
    requires forall c | c in s :: c < '\U{80}'
    ensures Bytes(s) == |s|
  {
    if s != "" {
      assert s[0] in s && forall c | c in s[1..] :: c in s;
      AsciiBytes(s[1..]);
    }
  }

  /** The parts, trimmed, in their places, if they pass the checks. */
  function Checked(ns: string, name: string, iface: string): Result<Element, Error> {
    var e := Element(TrimSpace(ns), TrimSpace(name), TrimSpace(iface));
    if !PartOk(e.namespace) || !PartOk(e.name) then Err(BadLabel)
    else if !InterfaceOk(e.iface) then Err(BadInterface)
    else Ok(e)
  }

  /** No separator where it would be taken for one. */
  predicate Separable(ns: string, name: string, iface: string) {
    '/' !in ns && '/' !in name && '/' !in iface && '@' !in name && '@' !in iface
  }

  /** In front of the slash stands the namespace, in front of the sign the name, after it the interface. */
  lemma FormsParse(ns: string, name: string, iface: string)
    requires Separable(ns, name, iface)
    ensures ParseObjectName(ns + "/" + name + "@" + iface) == Checked(ns, name, iface)
    ensures ParseObjectName(name + "@" + iface) == Checked("", name, iface)
    ensures ParseObjectName(ns + "/" + name) == Checked(ns, name, "")
    ensures ParseObjectName(name) == Checked("", name, "")
  {
    hide IsLabel, InterfaceOk, Split, TrimSpace;
    NothingToTrim();
    SlashForm(ns, name + "@" + iface);
    SlashForm(ns, name);
    SignForm(name, iface);
    SplitOne(name, '@');
    assert ns + "/" + name + "@" + iface == ns + "/" + (name + "@" + iface);
  }

  lemma NothingToTrim()
    ensures TrimSpace("") == ""
  {
  }

  lemma SlashForm(ns: string, rest: string)
    requires '/' !in ns && '/' !in rest
    ensures Split(ns + "/" + rest, '/') == [ns, rest] && Split(rest, '/') == [rest]
  {
    SplitOne(ns, '/');
    SplitOne(rest, '/');
    SplitAppend(ns, rest, '/');
    assert ns + "/" + rest == ns + ['/'] + rest;
  }

  lemma SignForm(name: string, iface: string)
    requires '@' !in name && '@' !in iface
    ensures Split(name + "@" + iface, '@') == [name, iface]
  {
    SplitOne(name, '@');
    SplitAppend(name, iface, '@');
    assert name + "@" + iface == name + ['@'] + iface;
  }

  /** What follows the last slash. */
  function AfterSlash(text: string): string {
    if '/' in text then AfterSlash(text[1..]) else text
  }

  lemma {:induction false} PieceCount(s: string, sep: char)
    ensures |Split(s, sep)| == multiset(s)[sep] + 1
  {
    if s != "" {
      PieceCount(s[1..], sep);
      assert s == [s[0]] + s[1..];
    }
  }

  lemma {:induction false} LastPiece(s: string)
    ensures Split(s, '/')[|Split(s, '/')| - 1] == AfterSlash(s)
  {
    if '/' in s {
      LastPiece(s[1..]);
      assert s == [s[0]] + s[1..];
      if s[0] != '/' {
        PieceCount(s[1..], '/');
        assert '/' in s[1..];
      }
    } else {
      SplitOne(s, '/');
    }
  }

  /** Each error about the shape of the text, exactly. */
  lemma ShapeErrors(text: string)
    ensures ParseObjectName(text) == Err(BadSlash) <==> multiset(text)['/'] > 1
    ensures ParseObjectName(text) == Err(BadAt) <==> multiset(text)['/'] <= 1 && multiset(AfterSlash(text))['@'] > 1
  {
    hide IsLabel, InterfaceOk, Split, TrimSpace;
    PieceCount(text, '/');
    LastPiece(text);
    PieceCount(AfterSlash(text), '@');
  }

  /** And every other text has one of the four forms, so that its parts decide. */
  lemma FormOf(text: string) returns (ns: string, name: string, iface: string)
    requires multiset(text)['/'] <= 1 && multiset(AfterSlash(text))['@'] <= 1
    ensures Separable(ns, name, iface) && ParseObjectName(text) == Checked(ns, name, iface)
    ensures || text == ns + "/" + name + "@" + iface || (ns == "" && text == name + "@" + iface)
            || (iface == "" && text == ns + "/" + name) || (ns == iface == "" && text == name)
  {
    hide ParseObjectName, Checked, AfterSlash;
    var rest: string;
    ns, rest := CutSlash(text);
    name, iface := CutSign(rest);
    FormsParse(ns, name, iface);
    if '/' in text && '@' in rest {
      assert ns + "/" + (name + "@" + iface) == ns + "/" + name + "@" + iface;
    }
  }

  lemma CutSlash(text: string) returns (ns: string, rest: string)
    requires multiset(text)['/'] <= 1
    ensures '/' !in ns && '/' !in rest && rest == AfterSlash(text)
    ensures if '/' in text then text == ns + "/" + rest else ns == "" && rest == text
  {
    hide AfterSlash, Split;
    ns, rest := CutOnce(text, '/');
    LastPiece(text);
    if '/' in text {
      SlashForm(ns, rest);
      assert text == ns + ['/'] + rest == ns + "/" + rest;
    } else {
      SplitOne(text, '/');
    }
  }

  /** A text with at most one separator, cut there; without one it is all rest. */
  lemma CutOnce(text: string, sep: char) returns (head: string, rest: string)
    requires multiset(text)[sep] <= 1
    ensures sep !in head && sep !in rest
    ensures if sep in text then text == head + [sep] + rest else head == "" && rest == text
  {
    PieceCount(text, sep);
    PiecesFree(text, sep);
    JoinSplit(text, sep);
    var pieces := Split(text, sep);
    if sep in text {
      assert multiset(text)[sep] >= 1;
      head, rest := pieces[0], pieces[1];
      JoinTwo(pieces, sep);
    } else {
      head, rest := "", text;
    }
  }

  lemma JoinTwo(pieces: seq<string>, sep: char)
    requires |pieces| == 2
    ensures Join(pieces, sep) == pieces[0] + [sep] + pieces[1]
  {
    assert pieces[..1] == [pieces[0]];
  }

  lemma CutSign(rest: string) returns (name: string, iface: string)
    requires multiset(rest)['@'] <= 1
    ensures '@' !in name && '@' !in iface
    ensures if '@' in rest then rest == name + "@" + iface else iface == "" && name == rest
    ensures '/' !in rest ==> '/' !in name && '/' !in iface
  {
    var head, tail := CutOnce(rest, '@');
    if '@' in rest {
      name, iface := head, tail;
      assert rest == name + ['@'] + iface == name + "@" + iface;
      assert forall c | c in name :: c in rest;
      assert forall c | c in iface :: c in rest;
    } else {
      name, iface := rest, "";
    }
  }

  // ----- The whole annotation -----

  predicate HasMark(text: string) {
    '[' in text || '{' in text || '"' in text
  }

  lemma JsonExactly(text: string)
    ensures LooksLikeJson(text) <==> HasMark(text)
  {
    var left, right := TrimExactly(text);
    TrimMembers(text);
    assert forall c | c in "[{\"" :: !IsSpace(c);
    if HasMark(text) {
      var c :| c in text && c in "[{\"";
      assert c in left || c in TrimSpace(text) || c in right;
    }
  }

  /** The element with its namespace, the default one if it has none. */
  function InNamespace(e: Element, defaultNamespace: string): Element {
    Element(if e.namespace == "" then defaultNamespace else e.namespace, e.name, e.iface)
  }

  /** What the annotation says. An empty text is an error. A text with a mark of JSON is decoded as such. Any
      other is a list between commas: it is read exactly if every item is, item by item and in order, and else
      the first bad item is the error. Whatever has no namespace gets the default one. */
  lemma AnnotationMeaning(text: string, defaultNamespace: string, decode: string -> Result<seq<Element>, Error>)
    ensures var r, items := Parsed(text, defaultNamespace, decode), Split(text, ',');
      && (text == "" ==> r == Err(EmptyText))
      && (HasMark(text) ==> (r.Ok? <==> decode(text).Ok?) && (r.Err? ==> r.error == decode(text).error))
      && (HasMark(text) && r.Ok? ==>
            && |r.value| == |decode(text).value|
            && forall i :: 0 <= i < |r.value| ==> r.value[i] == InNamespace(decode(text).value[i], defaultNamespace))
      && (text != "" && !HasMark(text) ==> ReadsItems(items, defaultNamespace, r))
  {
    hide ParseItems, LooksLikeJson, ReadsItems;
    JsonExactly(text);
    if text != "" && !HasMark(text) {
      ItemsExactly(Split(text, ','));
      FilledReads(Split(text, ','), defaultNamespace, ParseItems(Split(text, ',')));
    }
  }

  predicate ReadsItems(items: seq<string>, defaultNamespace: string, r: Result<seq<Element>, Error>) {
    if r.Ok? then
      && |r.value| == |items|
      && forall i :: 0 <= i < |items| ==>
           var e := ParseObjectName(TrimSpace(items[i])); e.Ok? && r.value[i] == InNamespace(e.value, defaultNamespace)
    else FirstBad(items, r.error)
  }

  predicate FirstBad(items: seq<string>, error: Error) {
    exists i :: 0 <= i < |items| && BadFirst(items, i, error)
  }

  /** Item `i` is the first that is not read, for this reason. */
  predicate BadFirst(items: seq<string>, i: nat, error: Error)
    requires i < |items|
  {
    ParseObjectName(TrimSpace(items[i])) == Err(error) && forall j :: 0 <= j < i ==> ParseObjectName(TrimSpace(items[j])).Ok?
  }

  lemma FilledReads(items: seq<string>, defaultNamespace: string, es: Result<seq<Element>, Error>)
    requires es.Ok? ==> |es.value| == |items| && EachParsed(items, es.value)
    requires es.Err? ==> FirstBad(items, es.error)
    ensures ReadsItems(items, defaultNamespace, if es.Err? then es else Ok(Filled(es.value, defaultNamespace)))
  {
    hide ParseObjectName, TrimSpace, FirstBad;
  }

  lemma {:induction false} ItemsExactly(items: seq<string>)
    ensures var r := ParseItems(items);
      (r.Ok? ==> |r.value| == |items| && EachParsed(items, r.value)) && (r.Err? ==> FirstBad(items, r.error))
  {
    hide ParseObjectName, TrimSpace, EachParsed;
    ItemsMeaning(items);
    if items != [] && ParseItems(items).Err? {
      var n := |items| - 1;
      ItemsExactly(items[..n]);
      if ParseItems(items[..n]).Err? {
        var error := ParseItems(items[..n]).error;
        var i :| 0 <= i < n && BadFirst(items[..n], i, error);
        assert forall j :: 0 <= j <= i ==> items[..n][j] == items[j];
        assert BadFirst(items, i, error);
      } else {
        PrefixRead(items, n);
        assert BadFirst(items, n, ParseItems(items).error);
      }
    }
  }

  lemma PrefixRead(items: seq<string>, n: nat)
    requires n <= |items| && ParseItems(items[..n]).Ok?
    ensures forall j :: 0 <= j < n ==> ParseObjectName(TrimSpace(items[j])).Ok?
  {
    hide ParseObjectName, TrimSpace, ParseItems;
    ItemsMeaning(items[..n]);
    assert forall j :: 0 <= j < n ==> items[..n][j] == items[j];
  }

  // ----- Round trip with interfaces -----

  /** A network as it is written: namespace and interface only if there are any. */
  function Written(e: Element): string {
    var body := if e.iface == "" then e.name else e.name + "@" + e.iface;
    if e.namespace == "" then body else e.namespace + "/" + body
  }

  function AllWritten(es: seq<Element>): (r: seq<string>)
    ensures |r| == |es| && forall i :: 0 <= i < |es| ==> r[i] == Written(es[i])
  {
    seq(|es|, i requires 0 <= i < |es| => Written(es[i]))
  }

  predicate CleanPart(s: string) {
    Trimmed(s) && forall c | c in s :: c !in ",/@[{\""
  }

  /** No part has blanks at its ends, a separator or a mark of JSON. */
  predicate Clean(e: Element) {
    CleanPart(e.namespace) && CleanPart(e.name) && CleanPart(e.iface)
  }

  predicate Valid(e: Element) {
    PartOk(e.namespace) && PartOk(e.name) && InterfaceOk(e.iface)
  }

  lemma WrittenParses(e: Element)
    requires Clean(e)
    ensures TrimSpace(Written(e)) == Written(e) && ',' !in Written(e) && !HasMark(Written(e))
    ensures ParseObjectName(Written(e)).Ok? <==> Valid(e)
    ensures Valid(e) ==> ParseObjectName(Written(e)) == Ok(e)
  {
    hide IsLabel, InterfaceOk, IsSpace, ParseObjectName, TrimSpace;
    FormsParse(e.namespace, e.name, e.iface);
    TrimOfTrimmed(e.namespace);
    TrimOfTrimmed(e.name);
    TrimOfTrimmed(e.iface);
    NothingToTrim();
    if e.namespace != "" && e.iface != "" {
      assert Written(e) == e.namespace + "/" + e.name + "@" + e.iface;
    }
    WrittenTrimmed(e);
    TrimOfTrimmed(Written(e));
    WrittenChars(e);
  }

  lemma WrittenTrimmed(e: Element)
    requires Clean(e)
    ensures Trimmed(Written(e))
  {
    var s := Written(e);
    assert !IsSpace('/') && !IsSpace('@');
    if s != "" {
      assert s[0] == if e.namespace != "" then e.namespace[0] else if e.name != "" then e.name[0] else '@';
      assert s[|s| - 1] ==
        if e.iface != "" then e.iface[|e.iface| - 1] else if e.name != "" then e.name[|e.name| - 1] else '/';
    }
  }

  lemma WrittenChars(e: Element)
    requires Clean(e)
    ensures forall c | c in Written(e) :: c !in ",[{\""
  {
    hide IsSpace;
    var body := if e.iface == "" then e.name else e.name + "@" + e.iface;
    assert forall c | c in body :: c in e.name || c == '@' || c in e.iface;
    assert forall c | c in Written(e) :: c in e.namespace || c == '/' || c in body;
  }

  lemma {:induction false} JoinMarks(items: seq<string>)
    requires forall item | item in items :: !HasMark(item)
    ensures !HasMark(Join(items, ','))
  {
    if items != [] {
      var n := |items| - 1;
      assert items[n] in items;
      if n > 0 {
        JoinMarks(items[..n]);
      }
    }
  }

  function Defaulted(es: seq<Element>, defaultNamespace: string): (r: seq<Element>)
    ensures |r| == |es| && forall i :: 0 <= i < |es| ==> r[i] == InNamespace(es[i], defaultNamespace)
  {
    seq(|es|, i requires 0 <= i < |es| => InNamespace(es[i], defaultNamespace))
  }

  /** The round trip, for networks with and without namespace and interface: what is written is read back, in
      order and with the default namespace where there was none, exactly if every part passes the checks. */
  lemma NetworksRoundTrip(es: seq<Element>, defaultNamespace: string, decode: string -> Result<seq<Element>, Error>)
    requires es != [] && (forall e | e in es :: Clean(e)) && Join(AllWritten(es), ',') != ""
    ensures var r := Parsed(Join(AllWritten(es), ','), defaultNamespace, decode);
      && (r.Ok? <==> forall e | e in es :: Valid(e))
      && (r.Ok? ==> r.value == Defaulted(es, defaultNamespace))
  {
    hide ParseObjectName, Clean, Valid, Written, HasMark, Parsed, Join, TrimSpace;
    var items := AllWritten(es);
    forall i | 0 <= i < |es|
      ensures ',' !in items[i] && !HasMark(items[i]) && TrimSpace(items[i]) == items[i]
      ensures ParseObjectName(items[i]).Ok? <==> Valid(es[i])
      ensures Valid(es[i]) ==> ParseObjectName(items[i]) == Ok(es[i])
    {
      assert es[i] in es;
      WrittenParses(es[i]);
    }
    JoinMarks(items);
    SplitJoin(items, ',');
    AnnotationMeaning(Join(items, ','), defaultNamespace, decode);
    var r := Parsed(Join(items, ','), defaultNamespace, decode);
    if r.Ok? {
      forall e | e in es ensures Valid(e) {
        var i :| 0 <= i < |es| && es[i] == e;
      }
    } else {
      var i :| 0 <= i < |items| && BadFirst(items, i, r.error);
      assert es[i] in es;
    }
  }

  // ----- Order -----

  /** At the first place where they differ the first text has the lower character, or it ends there. */
  predicate LexLess(a: string, b: string) {
    exists k :: 0 <= k <= |a| && k < |b| && a[..k] == b[..k] && (k == |a| || a[k] < b[k])
  }

  lemma LexTail(a: string, b: string)
    requires a != "" && b != "" && LexLess(a, b)
    ensures a[0] < b[0] || (a[0] == b[0] && LexLess(a[1..], b[1..]))
  {
    var k :| 0 <= k <= |a| && k < |b| && a[..k] == b[..k] && (k == |a| || a[k] < b[k]);
    if k > 0 {
      assert a[0] == a[..k][0] == b[..k][0] == b[0];
      assert a[1..][..k - 1] == a[..k][1..] == b[..k][1..] == b[1..][..k - 1];
      assert k - 1 == |a[1..]| || a[1..][k - 1] < b[1..][k - 1];
    }
  }

  lemma LexHead(a: string, b: string)
    requires b != "" && (a == "" || a[0] < b[0] || (a[0] == b[0] && LexLess(a[1..], b[1..])))
    ensures LexLess(a, b)
  {
    if a == "" || a[0] < b[0] {
      assert a[..0] == b[..0];
    } else {
      var c, d := a[1..], b[1..];
      var k :| 0 <= k <= |c| && k < |d| && c[..k] == d[..k] && (k == |c| || c[k] < d[k]);
      assert a[..k + 1] == [a[0]] + c[..k] == [b[0]] + d[..k] == b[..k + 1];
    }
  }

  lemma {:induction false} BeforeExactly(a: string, b: string)
    ensures Before(a, b) <==> LexLess(a, b)
  {
    hide LexLess;
    if a != "" && b != "" {
      BeforeExactly(a[1..], b[1..]);
    }
    if LexLess(a, b) {
      EmptyIsLeast(a, b);
      if a != "" { LexTail(a, b); }
    } else if Before(a, b) {
      LexHead(a, b);
    }
  }

  lemma EmptyIsLeast(a: string, b: string)
    ensures LexLess(a, b) ==> b != ""
  {
  }

  /** The networks are written in ascending order of their keys, and of their full names where keys are equal. */
  lemma SortedOrder(cs: seq<Config>, i: nat, j: nat)
    requires Distinct(cs) && i < j < |Sorted(cs)|
    ensures var a, b := Sorted(cs)[i], Sorted(cs)[j];
      LexLess(a.key, b.key) || (a.key == b.key && LexLess(a.namespace + "/" + a.name, b.namespace + "/" + b.name))
  {
    hide Sorted, Before, LexLess;
    SortedMeaning(cs);
    var a, b := Sorted(cs)[i], Sorted(cs)[j];
    assert Precedes(a, b);
    BeforeExactly(a.key, b.key);
    BeforeExactly(a.FullName(), b.FullName());
  }
}
