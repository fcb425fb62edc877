/**
 The Goodreads shelf feed (app/reading_lists.py): an event handler with mutable state that
 has to read the same items as a recursive walk over the document tree.
 */
module RssFeed {
  import opened Options
  import opened Text

  // ---------- documents and their event streams ----------

  datatype Xml = Chars(text: string) | Element(name: string, children: XmlList)
  datatype XmlList = Nil | Cons(head: Xml, tail: XmlList)

  datatype Event = StartElement(name: string) | EndElement(name: string) | CharacterData(text: string)

  function Events(x: Xml): seq<Event> {
    match x
    case Chars(text) => [CharacterData(text)]
    case Element(name, children) => [StartElement(name)] + EventsOfAll(children) + [EndElement(name)]
  }

  function EventsOfAll(list: XmlList): seq<Event> {
    match list
    case Nil => []
    case Cons(head, tail) => Events(head) + EventsOfAll(tail)
  }

  /** `name.rsplit(":", 1)[-1].lower()` */
  function Local(name: string): string {
    Lower(name[RFind(name, ':') + 1..])
  }

  // ---------- the recursive reading ----------

  type Fields = map<string, string>

  /** All character data below a node, in document order. */
  function TextOf(list: XmlList): string {
    match list
    case Nil => ""
    case Cons(Chars(text), tail) => text + TextOf(tail)
    case Cons(Element(_, children), tail) => TextOf(children) + TextOf(tail)
  }

  /** The value kept for a child; a name that ends in `:` has no local part and keeps no text. */
  function FieldValue(name: string, children: XmlList): string {
    if Local(name) == "" then "" else TextOf(children)
  }

  /** The child elements of an item by local name; the first occurrence wins. */
  function FieldsFrom(children: XmlList, fields: Fields): Fields {
    match children
    case Nil => fields
    case Cons(Chars(_), tail) => FieldsFrom(tail, fields)
    case Cons(Element(name, inner), tail) =>
      FieldsFrom(tail, if Local(name) in fields then fields else fields[Local(name) := FieldValue(name, inner)])
  }

  /** The outermost `item` elements of a forest, in document order. */
  function ItemsOf(list: XmlList): seq<Fields> {
    match list
    case Nil => []
    case Cons(Chars(_), tail) => ItemsOf(tail)
    case Cons(Element(name, children), tail) =>
      (if Local(name) == "item" then [FieldsFrom(children, map[])] else ItemsOf(children)) + ItemsOf(tail)
  }

  // ---------- the handlers ----------

  const MAX_PARSED_ROWS: nat := 2000

  datatype State = State(
    depth: int,
    itemDepth: int,
    field: string,
    root: string,
    truncated: bool,
    current: Fields,
    buffer: seq<string>,
    items: seq<Fields>)

  const INITIAL := State(0, 0, "", "", false, map[], [], [])

  function JoinAll(chunks: seq<string>): string {
    if chunks == [] then "" else JoinAll(chunks[..|chunks| - 1]) + chunks[|chunks| - 1]
  }

  function OnStart(s: State, name: string): State {
    var t := s.(depth := s.depth + 1);
    var local := Local(name);
    if t.depth == 1 then t.(root := local)
    else if local == "item" && t.itemDepth == 0 then t.(itemDepth := t.depth, current := map[])
    else if t.itemDepth != 0 && t.depth == t.itemDepth + 1 then t.(field := local, buffer := [])
    else t
  }

  function Finish(s: State): State {
    if |s.items| < MAX_PARSED_ROWS then s.(items := s.items + [s.current], itemDepth := 0)
    else s.(truncated := true, itemDepth := 0)
  }

  function OnEnd(s: State, name: string): State {
    var local := Local(name);
    var t :=
      if s.itemDepth != 0 && s.depth == s.itemDepth + 1 && s.field == local then
        s.(current := if local in s.current then s.current else s.current[local := JoinAll(s.buffer)], field := "")
      else if s.itemDepth != 0 && s.depth == s.itemDepth then Finish(s)
      else s;
    t.(depth := t.depth - 1)
  }

  function OnChars(s: State, text: string): State {
    if s.field != "" then s.(buffer := s.buffer + [text]) else s
  }

  function Handle(s: State, e: Event): State {
    match e
    case StartElement(name) => OnStart(s, name)
    case EndElement(name) => OnEnd(s, name)
    case CharacterData(text) => OnChars(s, text)
  }

  function Run(s: State, events: seq<Event>): State
    decreases |events|
  {
    if events == [] then s
    else Handle(Run(s, events[..|events| - 1]), events[|events| - 1])
  }

  lemma {:induction false} RunConcat(s: State, a: seq<Event>, b: seq<Event>)
    ensures Run(s, a + b) == Run(Run(s, a), b)
    decreases |b|
  {
    if b == [] {
      assert a + b == a;
    } else {
      assert (a + b)[..|a + b| - 1] == a + b[..|b| - 1];
      RunConcat(s, a, b[..|b| - 1]);
    }
  }

  lemma RunOne(s: State, e: Event)
    ensures Run(s, [e]) == Handle(s, e)
  {
    assert [e][..0] == [];
    assert Run(s, []) == s;
  }

  lemma RunElement(s: State, name: string, children: XmlList)
    ensures Run(s, Events(Element(name, children))) == OnEnd(Run(OnStart(s, name), EventsOfAll(children)), name)
  {
    hide Handle;
    var mid := EventsOfAll(children);
    RunConcat(s, [StartElement(name)] + mid, [EndElement(name)]);
    RunConcat(s, [StartElement(name)], mid);
    RunOne(s, StartElement(name));
    RunOne(Run(OnStart(s, name), mid), EndElement(name));
    assert Handle(s, StartElement(name)) == OnStart(s, name) by {
      HandleCases(s, name);
    }
    HandleCases(Run(OnStart(s, name), mid), name);
  }

  lemma HandleCases(s: State, name: string)
    ensures Handle(s, StartElement(name)) == OnStart(s, name)
    ensures Handle(s, EndElement(name)) == OnEnd(s, name)
  {
  }

  lemma HandleText(s: State, text: string)
    ensures Handle(s, CharacterData(text)) == OnChars(s, text)
  {
  }

  lemma RunCons(s: State, head: Xml, tail: XmlList)
    ensures Run(s, EventsOfAll(Cons(head, tail))) == Run(Run(s, Events(head)), EventsOfAll(tail))
  {
    RunConcat(s, Events(head), EventsOfAll(tail));
  }

  // ---------- the handlers compute the recursive reading ----------

  function ChunksOf(list: XmlList): seq<string> {
    match list
    case Nil => []
    case Cons(Chars(text), tail) => [text] + ChunksOf(tail)
    case Cons(Element(_, children), tail) => ChunksOf(children) + ChunksOf(tail)
  }

  lemma {:induction false} JoinAllConcat(a: seq<string>, b: seq<string>)
    ensures JoinAll(a + b) == JoinAll(a) + JoinAll(b)
    decreases |b|
  {
    if b == [] {
      assert a + b == a;
    } else {
      assert (a + b)[..|a + b| - 1] == a + b[..|b| - 1];
      JoinAllConcat(a, b[..|b| - 1]);
    }
  }

  lemma {:induction false} JoinChunks(list: XmlList)
    ensures JoinAll(ChunksOf(list)) == TextOf(list)
  {
    match list
    case Nil =>
    case Cons(Chars(text), tail) =>
      JoinChunks(tail);
      JoinAllConcat([text], ChunksOf(tail));
      assert [text][..0] == [];
    case Cons(Element(_, children), tail) =>
      JoinChunks(children);
      JoinChunks(tail);
      JoinAllConcat(ChunksOf(children), ChunksOf(tail));
  }

  lemma RunNothing(s: State)
    ensures Run(s, EventsOfAll(Nil)) == s
  {
  }

  lemma DeepElement(s: State, name: string)
    requires s.itemDepth > 0 && s.depth > s.itemDepth
    ensures OnStart(s, name) == s.(depth := s.depth + 1)
    ensures OnEnd(s.(depth := s.depth + 1), name) == s
  {
    hide Local;
  }

  /** Below a field, only the buffer grows: by the text, when the field has a name. */
  lemma {:induction false} InsideField(s: State, list: XmlList)
    requires s.itemDepth > 0 && s.depth > s.itemDepth
    ensures Run(s, EventsOfAll(list)) == if s.field == "" then s else s.(buffer := s.buffer + ChunksOf(list))
    decreases list
  {
    hide Local, Handle, OnStart, OnEnd, Run;
    match list
    case Nil =>
      RunNothing(s);
      assert s.buffer + [] == s.buffer;
    case Cons(head, tail) =>
      RunCons(s, head, tail);
      match head {
        case Chars(text) =>
          RunOne(s, CharacterData(text));
          HandleText(s, text);
          var t := OnChars(s, text);
          InsideField(t, tail);
          assert s.buffer + ([text] + ChunksOf(tail)) == s.buffer + [text] + ChunksOf(tail);
        case Element(name, children) =>
          RunElement(s, name, children);
          DeepElement(s, name);
          var t := OnStart(s, name);
          InsideField(t, children);
          var u := if s.field == "" then s else s.(buffer := s.buffer + ChunksOf(children));
          assert Run(t, EventsOfAll(children)) == u.(depth := s.depth + 1);
          DeepElement(u, name);
          InsideField(u, tail);
          assert s.buffer + ChunksOf(children) + ChunksOf(tail) == s.buffer + (ChunksOf(children) + ChunksOf(tail));
      }
  }

  /** One child element of an item records its text under its local name, unless taken. */
  lemma OneField(s: State, name: string, children: XmlList)
    requires s.itemDepth > 0 && s.depth == s.itemDepth && s.field == ""
    ensures var r := Run(s, Events(Element(name, children)));
      r == s.(current := if Local(name) in s.current then s.current
                         else s.current[Local(name) := FieldValue(name, children)], buffer := r.buffer)
  {
    hide Local;
    RunElement(s, name, children);
    var t := OnStart(s, name);
    assert t == s.(depth := s.depth + 1, field := Local(name), buffer := []);
    InsideField(t, children);
    JoinChunks(children);
    assert [] + ChunksOf(children) == ChunksOf(children);
    assert JoinAll([]) == "";
  }

  /** An element called `a:` has text, and nothing of it is recorded. */
  lemma ColonNameLosesText()
    ensures var children := Cons(Chars("t"), Nil);
      TextOf(children) == "t" && Local("a:") == "" && FieldValue("a:", children) == ""
  {
    RFindIs("a:", ':', 1);
    assert "a:"[2..] == "";
    assert Lower("") == "";
    assert TextOf(Cons(Chars("t"), Nil)) == "t" + TextOf(Nil) == "t";
  }

  lemma {:induction false} InsideItem(s: State, list: XmlList)
    requires s.itemDepth > 0 && s.depth == s.itemDepth && s.field == ""
    ensures var r := Run(s, EventsOfAll(list));
      r == s.(current := FieldsFrom(list, s.current), buffer := r.buffer)
    decreases list
  {
    hide Local;
    match list
    case Nil =>
    case Cons(head, tail) =>
      RunCons(s, head, tail);
      match head {
        case Chars(text) =>
          RunOne(s, CharacterData(text));
          InsideItem(s, tail);
        case Element(name, children) =>
          OneField(s, name, children);
          InsideItem(Run(s, Events(head)), tail);
      }
  }

  /** Appending items under the row cap. */
  function Push(s: State, found: seq<Fields>): State
    decreases |found|
  {
    if found == [] then s
    else
      var t := Push(s, found[..|found| - 1]);
      if |t.items| < MAX_PARSED_ROWS then t.(items := t.items + [found[|found| - 1]]) else t.(truncated := true)
  }

  lemma {:induction false} PushConcat(s: State, a: seq<Fields>, b: seq<Fields>)
    ensures Push(s, a + b) == Push(Push(s, a), b)
    decreases |b|
  {
    if b == [] {
      assert a + b == a;
    } else {
      assert (a + b)[..|a + b| - 1] == a + b[..|b| - 1];
      PushConcat(s, a, b[..|b| - 1]);
    }
  }

  /** Equality of handler states up to the scratch dictionary and buffer. */
  predicate SameProgress(a: State, b: State) {
    a.(current := map[], buffer := []) == b.(current := map[], buffer := [])
  }

  lemma {:induction false} PushProgress(a: State, b: State, found: seq<Fields>)
    requires SameProgress(a, b)
    ensures SameProgress(Push(a, found), Push(b, found))
    ensures Push(a, found).depth == a.depth && Push(a, found).itemDepth == a.itemDepth
    ensures Push(a, found).field == a.field && Push(a, found).root == a.root
    decreases |found|
  {
    if found != [] {
      PushProgress(a, b, found[..|found| - 1]);
    }
  }

  /** An outermost item is recorded once, whatever is nested inside it. */
  lemma OneItem(s: State, name: string, children: XmlList)
    requires s.depth > 0 && s.itemDepth == 0 && s.field == "" && Local(name) == "item"
    ensures SameProgress(Run(s, Events(Element(name, children))), Push(s, [FieldsFrom(children, map[])]))
  {
    hide Local;
    RunElement(s, name, children);
    var t := OnStart(s, name);
    assert t == s.(depth := s.depth + 1, itemDepth := s.depth + 1, current := map[]);
    InsideItem(t, children);
    var found := [FieldsFrom(children, map[])];
    assert found[..0] == [];
    assert Push(s, []) == s;
  }

  lemma {:induction false} OutsideItems(s: State, list: XmlList)
    requires s.depth > 0 && s.itemDepth == 0 && s.field == ""
    ensures SameProgress(Run(s, EventsOfAll(list)), Push(s, ItemsOf(list)))
    decreases list, 0
  {
    hide Local, FieldsFrom;
    match list
    case Nil =>
    case Cons(head, tail) =>
      RunCons(s, head, tail);
      match head {
        case Chars(text) =>
          RunOne(s, CharacterData(text));
          OutsideItems(s, tail);
        case Element(name, children) =>
          var found := if Local(name) == "item" then [FieldsFrom(children, map[])] else ItemsOf(children);
          if Local(name) == "item" {
            OneItem(s, name, children);
          } else {
            OtherElement(s, name, children);
          }
          var t, p := Run(s, Events(head)), Push(s, found);
          PushProgress(s, s, found);
          OutsideItems(t, tail);
          PushProgress(t, p, ItemsOf(tail));
          PushConcat(s, found, ItemsOf(tail));
      }
  }

  lemma {:induction false} OtherElement(s: State, name: string, children: XmlList)
    requires s.depth > 0 && s.itemDepth == 0 && s.field == "" && Local(name) != "item"
    ensures SameProgress(Run(s, Events(Element(name, children))), Push(s, ItemsOf(children)))
    decreases children, 1
  {
    hide Local, FieldsFrom;
    RunElement(s, name, children);
    var t := OnStart(s, name);
    assert t == s.(depth := s.depth + 1);
    OutsideItems(t, children);
    PushProgress(t, t, ItemsOf(children));
    PushProgress(s, s, ItemsOf(children));
    PushDepth(s, ItemsOf(children));
    var u := Run(t, EventsOfAll(children));
    assert u.itemDepth == 0 && u.depth == s.depth + 1;
    assert OnEnd(u, name) == u.(depth := s.depth);
  }

  lemma {:induction false} PushDepth(s: State, found: seq<Fields>)
    ensures Push(s.(depth := s.depth + 1), found) == Push(s, found).(depth := s.depth + 1)
    decreases |found|
  {
    if found != [] {
      PushDepth(s, found[..|found| - 1]);
    }
  }

  lemma {:induction false} PushFromEmpty(s: State, found: seq<Fields>)
    requires s.items == [] && !s.truncated
    ensures var r := Push(s, found);
      && r.items == found[..if |found| < MAX_PARSED_ROWS then |found| else MAX_PARSED_ROWS]
      && (r.truncated <==> |found| > MAX_PARSED_ROWS)
    decreases |found|
  {
    if found != [] {
      PushFromEmpty(s, found[..|found| - 1]);
    }
  }

  function FirstRows(found: seq<Fields>): seq<Fields> {
    found[..if |found| < MAX_PARSED_ROWS then |found| else MAX_PARSED_ROWS]
  }

  /**
   Folding the handlers over the events of any document gives the recursive reading of its
   tree: the outermost items below the root, at most MAX_PARSED_ROWS of them, with
   `truncated` exactly when there are more.
   */
  lemma HandlersReadTree(name: string, children: XmlList)
    ensures var r := Run(INITIAL, Events(Element(name, children)));
      && r.root == Local(name)
      && r.items == FirstRows(ItemsOf(children))
      && (r.truncated <==> |ItemsOf(children)| > MAX_PARSED_ROWS)
      && r.depth == 0
  {
    hide Local, FieldsFrom, ItemsOf;
    RunElement(INITIAL, name, children);
    var t := OnStart(INITIAL, name);
    assert t == INITIAL.(depth := 1, root := Local(name));
    OutsideItems(t, children);
    PushProgress(t, t, ItemsOf(children));
    PushFromEmpty(t, ItemsOf(children));
  }

  // ---------- the recursive reading on its own ----------

  /** The part after the last colon, in small letters. */
  lemma LocalIs(prefix: string, name: string)
    requires ':' !in name
    ensures Local(prefix + ":" + name) == Lower(name) && Local(name) == Lower(name)
  {
    var s := prefix + ":" + name;
    RFindIs(s, ':', |prefix|);
    assert s[|prefix| + 1..] == name;
    assert RFind(name, ':') == -1;
    assert name[0..] == name;
  }

  /** The texts of the character data events, one after the other. */
  function EventText(events: seq<Event>): string {
    if events == [] then ""
    else
      var n := |events| - 1;
      EventText(events[..n]) + if events[n].CharacterData? then events[n].text else ""
  }

  lemma {:induction false} EventTextConcat(a: seq<Event>, b: seq<Event>)
    ensures EventText(a + b) == EventText(a) + EventText(b)
    decreases |b|
  {
    if b == [] {
      assert a + b == a;
    } else {
      assert (a + b)[..|a + b| - 1] == a + b[..|b| - 1];
      EventTextConcat(a, b[..|b| - 1]);
    }
  }

  lemma OneEvent(e: Event)
    ensures EventText([e]) == if e.CharacterData? then e.text else ""
  {
    assert [e][..0] == [];
  }

  lemma Silent(before: seq<Event>, e: Event)
    requires !e.CharacterData?
    ensures EventText(before + [e]) == EventText(before)
  {
    assert (before + [e])[..|before|] == before;
    assert EventText(before) + "" == EventText(before);
  }

  lemma SilentStart(e: Event, rest: seq<Event>)
    requires !e.CharacterData?
    ensures EventText([e] + rest) == EventText(rest)
  {
    EventTextConcat([e], rest);
    OneEvent(e);
    hide EventText;
    assert "" + EventText(rest) == EventText(rest);
  }

  lemma ElementText(name: string, children: XmlList, tail: XmlList)
    ensures EventText(EventsOfAll(Cons(Element(name, children), tail)))
         == EventText(EventsOfAll(children)) + EventText(EventsOfAll(tail))
  {
    var mid := EventsOfAll(children);
    var own := [StartElement(name)] + mid + [EndElement(name)];
    assert EventsOfAll(Cons(Element(name, children), tail)) == own + EventsOfAll(tail);
    hide EventText, EventsOfAll;
    EventTextConcat(own, EventsOfAll(tail));
    Silent([StartElement(name)] + mid, EndElement(name));
    SilentStart(StartElement(name), mid);
  }

  lemma CharsText(text: string, tail: XmlList)
    ensures EventText(EventsOfAll(Cons(Chars(text), tail))) == text + EventText(EventsOfAll(tail))
  {
    assert EventsOfAll(Cons(Chars(text), tail)) == [CharacterData(text)] + EventsOfAll(tail);
    hide EventText, EventsOfAll;
    EventTextConcat([CharacterData(text)], EventsOfAll(tail));
    OneEvent(CharacterData(text));
  }

  /** The text of a forest is all its character data in document order, however deep. */
  lemma {:induction false} TextInOrder(list: XmlList)
    ensures TextOf(list) == EventText(EventsOfAll(list))
  {
    match list
    case Nil =>
    case Cons(Chars(text), tail) =>
      hide EventText, EventsOfAll;
      TextInOrder(tail);
      CharsText(text, tail);
    case Cons(Element(name, children), tail) =>
      hide EventText, EventsOfAll;
      TextInOrder(children);
      TextInOrder(tail);
      ElementText(name, children, tail);
  }

  function AsSeq(list: XmlList): seq<Xml> {
    match list
    case Nil => []
    case Cons(head, tail) => [head] + AsSeq(tail)
  }

  /** Node `i` of an item is the first of its elements with the local name `key`. */
  ghost predicate FirstNamed(nodes: seq<Xml>, key: string, i: nat) {
    && i < |nodes| && nodes[i].Element? && Local(nodes[i].name) == key
    && forall j :: 0 <= j < i && nodes[j].Element? ==> Local(nodes[j].name) != key
  }

  ghost predicate NoneNamed(nodes: seq<Xml>, key: string) {
    forall j :: 0 <= j < |nodes| && nodes[j].Element? ==> Local(nodes[j].name) != key
  }

  lemma {:induction false} FieldsKeep(children: XmlList, fields: Fields, key: string)
    requires key in fields
    ensures key in FieldsFrom(children, fields) && FieldsFrom(children, fields)[key] == fields[key]
    decreases children
  {
    hide Local, FieldValue;
    match children
    case Nil =>
    case Cons(Chars(_), tail) => FieldsKeep(tail, fields, key);
    case Cons(Element(name, inner), tail) =>
      FieldsKeep(tail, if Local(name) in fields then fields else fields[Local(name) := FieldValue(name, inner)], key);
  }

  /** A field of an item is the text of its first element of that name; there are no other fields. */
  lemma {:induction false} FieldsAreFirst(children: XmlList, fields: Fields, key: string)
    requires key !in fields
    ensures var nodes, result := AsSeq(children), FieldsFrom(children, fields);
      && (key in result <==> !NoneNamed(nodes, key))
      && (forall i: nat :: FirstNamed(nodes, key, i) ==>
        key in result && result[key] == if key == "" then "" else TextOf(nodes[i].children))
    decreases children
  {
    hide Local;
    match children
    case Nil =>
    case Cons(head, tail) =>
      var nodes, rest := AsSeq(children), AsSeq(tail);
      assert nodes == [head] + rest;
      assert forall j :: 1 <= j < |nodes| ==> nodes[j] == rest[j - 1];
      if head.Element? && Local(head.name) == key {
        FieldsKeep(tail, fields[key := FieldValue(head.name, head.children)], key);
        assert FirstNamed(nodes, key, 0);
        assert forall i: nat :: FirstNamed(nodes, key, i) ==> i == 0;
      } else {
        var before := if head.Chars? || Local(head.name) in fields then fields
                      else fields[Local(head.name) := FieldValue(head.name, head.children)];
        FieldsAreFirst(tail, before, key);
        assert forall j :: 0 <= j < |rest| ==> rest[j] == nodes[j + 1];
        assert NoneNamed(nodes, key) <==> NoneNamed(rest, key);
        forall i: nat | FirstNamed(nodes, key, i)
          ensures i > 0 && FirstNamed(rest, key, i - 1) && rest[i - 1] == nodes[i]
        {
        }
      }
  }

  function Append(a: XmlList, b: XmlList): XmlList {
    match a
    case Nil => b
    case Cons(head, tail) => Cons(head, Append(tail, b))
  }

  /** Items are listed in document order. */
  lemma {:induction false} ItemsInOrder(a: XmlList, b: XmlList)
    ensures ItemsOf(Append(a, b)) == ItemsOf(a) + ItemsOf(b)
    decreases a
  {
    hide Local, FieldsFrom;
    match a
    case Nil =>
      assert [] + ItemsOf(b) == ItemsOf(b);
    case Cons(head, tail) =>
      ItemsInOrder(tail, b);
      var own := if head.Chars? then [] else if Local(head.name) == "item" then [FieldsFrom(head.children, map[])]
                 else ItemsOf(head.children);
      assert own + (ItemsOf(tail) + ItemsOf(b)) == own + ItemsOf(tail) + ItemsOf(b);
  }

  /** An element called `item` is one item, whatever is nested in it; any other has those nested in it. */
  lemma ItemsOfOne(name: string, children: XmlList)
    ensures ItemsOf(Cons(Element(name, children), Nil))
         == if Local(name) == "item" then [FieldsFrom(children, map[])] else ItemsOf(children)
    ensures forall text :: ItemsOf(Cons(Chars(text), Nil)) == []
  {
    hide Local, FieldsFrom;
    assert ItemsOf(Nil) == [];
    assert ItemsOf(children) + [] == ItemsOf(children);
  }

  /** `<title>x<b>y</b></title>` */
  const TITLE := Element("dc:Title", Cons(Chars("x"), Cons(Element("b", Cons(Chars("y"), Nil)), Nil)))

  /** An item with two titles and a nested item, and after it an item below another element. */
  const CHANNEL :=
    Element("channel", Cons(
      Element("a:Item", Cons(TITLE, Cons(Element("title", Cons(Chars("z"), Nil)), Cons(
        Element("item", Cons(Chars("w"), Nil)), Nil)))), Cons(
      Element("more", Cons(Element("ITEM", Nil), Nil)), Nil)))

  lemma ExampleNames()
    ensures Local("dc:Title") == "title" && Local("title") == "title" && Local("a:Item") == "item"
    ensures Local("item") == "item" && Local("ITEM") == "item" && Local("channel") == "channel"
    ensures Local("more") == "more" && Local("rss") == "rss"
  {
    hide *;
    LowerExamples();
    assert "dc" + ":" + "Title" == "dc:Title" && "a" + ":" + "Item" == "a:Item";
    LocalIs("dc", "Title");
    LocalIs("a", "Item");
    LocalIs("", "title");
    LocalIs("", "item");
    LocalIs("", "ITEM");
    LocalIs("", "channel");
    LocalIs("", "more");
    LocalIs("", "rss");
  }

  lemma LowerExamples()
    ensures Lower("Title") == "title" && Lower("Item") == "item" && Lower("ITEM") == "item"
    ensures Lower("title") == "title" && Lower("item") == "item" && Lower("channel") == "channel"
    ensures Lower("more") == "more" && Lower("rss") == "rss"
  {
  }

  lemma ChannelItems()
    ensures ItemsOf(Cons(CHANNEL, Nil)) == [map["title" := "xy", "item" := "w"], map[]]
  {
    ExampleNames();
    FirstItemRead();
    hide Local, Events, EventsOfAll, Run, TextOf;
    ItemsOfOne(CHANNEL.name, CHANNEL.children);
    var item := CHANNEL.children.head;
    ItemsOfOne(item.name, item.children);
    ItemsOfOne("more", Cons(Element("ITEM", Nil), Nil));
    ItemsOfOne("ITEM", Nil);
    ItemsInOrder(Cons(item, Nil), CHANNEL.children.tail);
    assert Append(Cons(item, Nil), CHANNEL.children.tail) == CHANNEL.children;
  }

  /** What the handlers record of that document. */
  lemma ChannelRead()
    ensures var r := Run(INITIAL, Events(Element("rss", Cons(CHANNEL, Nil))));
      && r.root == "rss" && !r.truncated
      && r.items == [map["title" := "xy", "item" := "w"], map[]]
  {
    hide *;
    ExampleNames();
    HandlersReadTree("rss", Cons(CHANNEL, Nil));
    ChannelItems();
    var items: seq<Fields> := [map["title" := "xy", "item" := "w"], map[]];
    FewRows(items);
  }

  lemma FewRows(items: seq<Fields>)
    requires |items| <= 2000
    ensures FirstRows(items) == items && |items| <= MAX_PARSED_ROWS
  {
  }

  lemma FirstItemRead()
    ensures FieldsFrom(CHANNEL.children.head.children, map[]) == map["title" := "xy", "item" := "w"]
  {
    ExampleNames();
    hide Local;
    var second := Element("title", Cons(Chars("z"), Nil));
    var third := Element("item", Cons(Chars("w"), Nil));
    assert CHANNEL.children.head.children == Cons(TITLE, Cons(second, Cons(third, Nil)));
    assert TextOf(Cons(Element("b", Cons(Chars("y"), Nil)), Nil)) == TextOf(Cons(Chars("y"), Nil)) + TextOf(Nil);
    assert TextOf(TITLE.children) == "xy";
    assert FieldValue("dc:Title", TITLE.children) == "xy" && FieldValue("item", third.children) == "w";
    var one: Fields := map["title" := "xy"];
    assert FieldsFrom(Cons(third, Nil), one) == FieldsFrom(Nil, one["item" := "w"]);
    assert FieldsFrom(Cons(second, Cons(third, Nil)), one) == FieldsFrom(Cons(third, Nil), one);
  }

  // ---------- the parser object ----------

  class RssHandler {
    var depth: int
    var itemDepth: int
    var field: string
    var root: string
    var truncated: bool
    var current: Fields
    var buffer: seq<string>
    var items: seq<Fields>

    ghost function Now(): State
      reads this
    {
      State(depth, itemDepth, field, root, truncated, current, buffer, items)
    }

    constructor ()
      ensures Now() == INITIAL
    {
      depth, itemDepth, field, root, truncated := 0, 0, "", "", false;
      current, buffer, items := map[], [], [];
    }

    method Start(name: string)
      modifies this
      ensures Now() == OnStart(old(Now()), name)
    {
      hide Local;
      depth := depth + 1;
      var local := Local(name);
      if depth == 1 {
        root := local;
      } else if local == "item" && itemDepth == 0 {
        itemDepth := depth;
        current := map[];
      } else if itemDepth != 0 && depth == itemDepth + 1 {
        field := local;
        buffer := [];
      }
    }

    method End(name: string)
      modifies this
      ensures Now() == OnEnd(old(Now()), name)
    {
      hide Local;
      var local := Local(name);
      if itemDepth != 0 && depth == itemDepth + 1 && field == local {
        if local !in current {
          current := current[local := JoinAll(buffer)];
        }
        field := "";
      } else if itemDepth != 0 && depth == itemDepth {
        if |items| < MAX_PARSED_ROWS {
          items := items + [current];
        } else {
          truncated := true;
        }
        itemDepth := 0;
      }
      depth := depth - 1;
    }

    method CharData(text: string)
      modifies this
      ensures Now() == OnChars(old(Now()), text)
    {
      if field != "" {
        buffer := buffer + [text];
      }
    }

    method Feed(events: seq<Event>)
      modifies this
      ensures Now() == Run(old(Now()), events)
    {
      hide OnStart, OnEnd, OnChars;
      for n := 0 to |events|
        invariant Now() == Run(old(Now()), events[..n])
      {
        assert events[..n + 1][..n] == events[..n];
        match events[n] {
          case StartElement(name) => Start(name);
          case EndElement(name) => End(name);
          case CharacterData(text) => CharData(text);
        }
      }
      assert events[..|events|] == events;
    }
  }

  // ---------- entries ----------

  /** A normalised book row; `key` is its `entry_key`. */
  datatype Entry = Entry(key: string, title: string)

  datatype ParseResult = ParseResult(
    entries: seq<Entry>,
    totalRows: nat,
    skippedRows: nat,
    duplicateRows: nat,
    truncated: bool)

  datatype Parsed = NotRss | Feed(result: ParseResult)

  predicate HasKey(entries: seq<Entry>, key: string) {
    exists i :: 0 <= i < |entries| && entries[i].key == key
  }

  /** First occurrences by key, in row order; `None` is a row without a usable title. */
  function Collected(rows: seq<Option<Entry>>): seq<Entry> {
    if rows == [] then []
    else
      var before, row := Collected(rows[..|rows| - 1]), rows[|rows| - 1];
      if row.None? || HasKey(before, row.value.key) then before else before + [row.value]
  }

  function Untitled(rows: seq<Option<Entry>>): nat {
    if rows == [] then 0
    else Untitled(rows[..|rows| - 1]) + if rows[|rows| - 1].None? then 1 else 0
  }

  function UntitledAt(rows: seq<Option<Entry>>): (r: set<nat>)
    ensures forall i: nat :: i in r <==> i < |rows| && rows[i].None?
  {
    set i: nat | i < |rows| && rows[i].None?
  }

  lemma {:induction false} UntitledIs(rows: seq<Option<Entry>>)
    ensures Untitled(rows) == |UntitledAt(rows)|
  {
    if rows != [] {
      var n := |rows| - 1;
      UntitledIs(rows[..n]);
      hide UntitledAt;
      if rows[n].None? {
        assert UntitledAt(rows) == UntitledAt(rows[..n]) + {n};
      } else {
        assert UntitledAt(rows) == UntitledAt(rows[..n]);
      }
    } else {
      assert UntitledAt(rows) == {};
    }
  }

  /** The first row with this key, if any. */
  ghost predicate FirstWithKey(rows: seq<Option<Entry>>, i: nat) {
    && i < |rows| && rows[i].Some?
    && forall j :: 0 <= j < i && rows[j].Some? ==> rows[j].value.key != rows[i].value.key
  }

  lemma {:induction false} CollectedKeys(rows: seq<Option<Entry>>)
    ensures forall i, j :: 0 <= i < j < |Collected(rows)| ==> Collected(rows)[i].key != Collected(rows)[j].key
    ensures forall i :: 0 <= i < |rows| && rows[i].Some? ==> HasKey(Collected(rows), rows[i].value.key)
  {
    if rows != [] {
      var n := |rows| - 1;
      CollectedKeys(rows[..n]);
      var before, after := Collected(rows[..n]), Collected(rows);
      forall i | 0 <= i < |rows| && rows[i].Some?
        ensures HasKey(after, rows[i].value.key)
      {
        if i < n {
          assert rows[..n][i] == rows[i];
          var k :| 0 <= k < |before| && before[k].key == rows[i].value.key;
          assert after[k] == before[k];
        } else if !HasKey(before, rows[n].value.key) {
          assert after[|before|] == rows[n].value;
        }
      }
    }
  }

  lemma FirstInPrefix(rows: seq<Option<Entry>>, n: nat, i: nat)
    requires i < n <= |rows|
    ensures FirstWithKey(rows, i) <==> FirstWithKey(rows[..n], i)
  {
    assert forall j :: 0 <= j < n ==> rows[..n][j] == rows[j];
  }

  ghost predicate KeptFirst(rows: seq<Option<Entry>>, e: Entry, i: nat) {
    FirstWithKey(rows, i) && rows[i].value == e
  }

  /** Exactly the first row of each key is kept, and it is kept as it stands. */
  lemma {:induction false} CollectedFirst(rows: seq<Option<Entry>>, e: Entry)
    ensures e in Collected(rows) <==> exists i: nat :: KeptFirst(rows, e, i)
  {
    hide FirstWithKey;
    if rows == [] {
      FirstInRange(rows);
    } else {
      var n := |rows| - 1;
      CollectedFirst(rows[..n], e);
      FirstInRange(rows);
      FirstInRange(rows[..n]);
      forall i: nat | i < n
        ensures KeptFirst(rows, e, i) <==> KeptFirst(rows[..n], e, i)
      {
        FirstInPrefix(rows, n, i);
        assert rows[..n][i] == rows[i];
      }
      LastIsFirst(rows);
      assert e in Collected(rows) <==> e in Collected(rows[..n]) || KeptFirst(rows, e, n);
    }
  }

  lemma FirstInRange(rows: seq<Option<Entry>>)
    ensures forall i: nat :: FirstWithKey(rows, i) ==> i < |rows| && rows[i].Some?
  {
  }

  lemma LastIsFirst(rows: seq<Option<Entry>>)
    requires rows != []
    ensures var n := |rows| - 1;
      FirstWithKey(rows, n) <==> rows[n].Some? && !HasKey(Collected(rows[..n]), rows[n].value.key)
  {
    var n := |rows| - 1;
    hide Collected;
    if rows[n].Some? {
      KeyOrigin(rows[..n], rows[n].value.key);
      assert forall i :: 0 <= i < n ==> rows[..n][i] == rows[i];
    }
  }

  lemma {:induction false} KeyOrigin(rows: seq<Option<Entry>>, key: string)
    ensures HasKey(Collected(rows), key) <==> exists i :: 0 <= i < |rows| && rows[i].Some? && rows[i].value.key == key
  {
    CollectedKeys(rows);
    if rows != [] {
      var n := |rows| - 1;
      KeyOrigin(rows[..n], key);
      assert forall i :: 0 <= i < n ==> rows[..n][i] == rows[i];
      if HasKey(Collected(rows), key) && !HasKey(Collected(rows[..n]), key) {
        assert rows[n].Some? && rows[n].value.key == key;
      }
    }
  }

  /** The row loop with its counters and `seen` set. */
  method CollectEntries(rows: seq<Option<Entry>>, truncated: bool) returns (result: ParseResult)
    ensures result.entries == Collected(rows)
    ensures result.totalRows == |rows| == |result.entries| + result.skippedRows + result.duplicateRows
    ensures result.skippedRows == |UntitledAt(rows)|
    ensures result.truncated == truncated
  {
    var entries: seq<Entry>, total, skipped, duplicates, seen: set<string> := [], 0, 0, 0, {};
    for n := 0 to |rows|
      invariant entries == Collected(rows[..n]) && skipped == Untitled(rows[..n])
      invariant total == n == |entries| + skipped + duplicates
      invariant forall key :: key in seen <==> HasKey(entries, key)
    {
      assert rows[..n + 1][..n] == rows[..n];
      total := total + 1;
      if rows[n].None? {
        skipped := skipped + 1;
      } else if rows[n].value.key in seen {
        duplicates := duplicates + 1;
      } else {
        ghost var before := entries;
        seen := seen + {rows[n].value.key};
        entries := entries + [rows[n].value];
        forall key
          ensures key in seen <==> HasKey(entries, key)
        {
          assert entries[|before|].key == rows[n].value.key;
          if HasKey(before, key) {
            var i :| 0 <= i < |before| && before[i].key == key;
            assert entries[i].key == key;
          }
        }
      }
    }
    assert rows[..|rows|] == rows;
    UntitledIs(rows);
    result := ParseResult(entries, total, skipped, duplicates, truncated);
  }

  function RowsOf(items: seq<Fields>, normalise: Fields -> Option<Entry>): (r: seq<Option<Entry>>)
    ensures |r| == |items| && forall i :: 0 <= i < |r| ==> r[i] == normalise(items[i])
  {
    seq(|items|, i requires 0 <= i < |items| => normalise(items[i]))
  }

  /**
   A well-formed feed document: the entries are the first occurrences by key among the
   normalised outermost items, and the row counts add up.
   */
  method ParseGoodreadsRss(name: string, children: XmlList, normalise: Fields -> Option<Entry>) returns (parsed: Parsed)
    ensures parsed.NotRss? <==> Local(name) != "rss"
    ensures parsed.Feed? ==>
      var rows := RowsOf(FirstRows(ItemsOf(children)), normalise); var r := parsed.result;
      && r.entries == Collected(rows)
      && r.totalRows == |rows| == |r.entries| + r.skippedRows + r.duplicateRows
      && (forall i, j :: 0 <= i < j < |r.entries| ==> r.entries[i].key != r.entries[j].key)
      && r.skippedRows == |UntitledAt(rows)|
      && (r.truncated <==> |ItemsOf(children)| > 2000)
      && r.totalRows == if |ItemsOf(children)| > 2000 then 2000 else |ItemsOf(children)|
  {
    hide Local, Collected, ItemsOf, Run;
    var handler := new RssHandler();
    handler.Feed(Events(Element(name, children)));
    HandlersReadTree(name, children);
    if handler.root != "rss" {
      return NotRss;
    }
    var rows := RowsOf(handler.items, normalise);
    var result := CollectEntries(rows, handler.truncated);
    CollectedKeys(rows);
    return Feed(result);
  }

  // ---------- CSV uploads ----------

  datatype CsvRow = Blank | Row(entry: Option<Entry>)

  function NonBlank(rows: seq<CsvRow>): seq<Option<Entry>> {
    if rows == [] then []
    else
      NonBlank(rows[..|rows| - 1]) + if rows[|rows| - 1].Blank? then [] else [rows[|rows| - 1].entry]
  }

  lemma {:induction false} NonBlankMonotone(rows: seq<CsvRow>, n: nat)
    requires n <= |rows|
    ensures NonBlank(rows[..n]) <= NonBlank(rows)
  {
    if n < |rows| {
      NonBlankMonotone(rows[..|rows| - 1], n);
      assert rows[..|rows| - 1][..n] == rows[..n];
    } else {
      assert rows[..n] == rows;
    }
  }

  /** A row counts exactly when it is not blank, and counted rows keep their order. */
  lemma {:induction false} NonBlankInOrder(before: seq<CsvRow>, row: CsvRow, after: seq<CsvRow>)
    ensures NonBlank(before + [row] + after)
         == NonBlank(before) + (if row.Blank? then [] else [row.entry]) + NonBlank(after)
    decreases |after|
  {
    var all := before + [row] + after;
    if after == [] {
      assert all[..|all| - 1] == before;
    } else {
      assert all[..|all| - 1] == before + [row] + after[..|after| - 1];
      NonBlankInOrder(before, row, after[..|after| - 1]);
    }
  }

  /** The rows a CSV parse considers: blank rows never count, the cap stops the loop. */
  method SelectCsvRows(rows: seq<CsvRow>) returns (selected: seq<Option<Entry>>, truncated: bool)
    ensures truncated <==> |NonBlank(rows)| > 2000
    ensures selected == NonBlank(rows)[..if truncated then 2000 else |NonBlank(rows)|]
  {
    selected, truncated := [], false;
    var n := 0;
    while n < |rows|
      invariant n <= |rows| && selected == NonBlank(rows[..n]) && |selected| <= MAX_PARSED_ROWS
    {
      assert rows[..n + 1][..n] == rows[..n];
      if !rows[n].Blank? {
        if |selected| >= MAX_PARSED_ROWS {
          NonBlankMonotone(rows, n + 1);
          NonBlankMonotone(rows, n);
          truncated := true;
          return;
        }
        selected := selected + [rows[n].entry];
      }
      n := n + 1;
    }
    assert rows[..n] == rows;
  }
}
