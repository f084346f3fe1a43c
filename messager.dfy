/** `ReflectionMessager`, the in-memory stand-in for the host's Messager:
    an append-only list of messages, the printMessage overloads that format
    text onto it, and the filtered query that tests read back. */
module ReflectionMessagers {
  import opened LangModel
  import Seqs

  /** Whom a message is about: the NO_ELEMENT and ANY_ELEMENT sentinels, or
      an Elemental wrapper object, with `id` standing for its identity. */
  datatype Elemental = NoElement | AnyElement | ElementalOf(id: nat, element: Element)

  /** Wrappers are compared with equals, which the model takes to be
      identity, as Object.equals is: two wrappers are equal exactly when they
      are the same object; the sentinels are single objects. */
  predicate SameObject(a: Elemental, b: Elemental) {
    match (a, b)
    case (NoElement, NoElement) => true
    case (AnyElement, AnyElement) => true
    case (ElementalOf(i, _), ElementalOf(j, _)) => i == j
    case _ => false
  }

  /** A Message as the list stores it. */
  datatype StoredMessage = StoredMessage(elemental: Elemental, kind: DiagnosticKind, text: string)

  /** What Java's string concatenation prints for a null reference. */
  const NULL_TEXT: string := "null"

  function MirrorText(a: Option<AnnotationMirror>): string {
    match a
    case None => NULL_TEXT
    case Some(m) => m.display
  }

  function ValueText(v: Option<AnnotationValue>): string {
    match v
    case None => NULL_TEXT
    case Some(x) => x.display
  }

  /** The java.util.List of messages; an object of its own, because
      getMessages() hands out this very list. */
  class MessageList {
    var elements: seq<StoredMessage>

    constructor ()
      ensures elements == []
    {
      elements := [];
    }

    /** List.add: append at the end. */
    method Add(m: StoredMessage)
      modifies this
      ensures elements == old(elements) + [m]
    {
      elements := elements + [m];
    }
  }

  /** getMessages(element, kind) keeps a message when its kind matches and
      the element matches, or when the query is for ANY_ELEMENT. */
  predicate Selects(target: Elemental, kind: DiagnosticKind, m: StoredMessage) {
    (target == AnyElement || SameObject(m.elemental, target)) && m.kind == kind
  }

  function Selector(target: Elemental, kind: DiagnosticKind): StoredMessage -> bool {
    m => Selects(target, kind, m)
  }

  function Text(m: StoredMessage): string {
    m.text
  }

  /** The texts of the selected messages, in the order they were stored. */
  function Selected(log: seq<StoredMessage>, target: Elemental, kind: DiagnosticKind): (r: seq<string>)
    ensures |r| <= |log|
  {
    Seqs.Map(Text, Seqs.Filter(log, Selector(target, kind)))
  }

  class ReflectionMessager {
    const messages: MessageList

    constructor ()
      ensures fresh(messages) && messages.elements == []
    {
      messages := new MessageList();
    }

    /** message(elemental, kind, message): append one message. */
    method Message(elemental: Elemental, kind: DiagnosticKind, message: string)
      modifies messages
      ensures messages.elements == old(messages.elements) + [StoredMessage(elemental, kind, message)]
    {
      messages.Add(StoredMessage(elemental, kind, message));
    }

    /** printMessage(kind, msg): a message about NO_ELEMENT, whatever the kind. */
    method PrintMessage(kind: DiagnosticKind, msg: string)
      modifies messages
      ensures messages.elements == old(messages.elements) + [StoredMessage(NoElement, kind, msg)]
    {
      Message(NoElement, kind, msg);
    }

    /** printMessage(kind, msg, e): e must be null. */
    method PrintMessageForElement(kind: DiagnosticKind, msg: string, e: Option<Element>)
      requires e.None?
      modifies messages
      ensures messages.elements == old(messages.elements) + [StoredMessage(NoElement, kind, msg + " ### " + NULL_TEXT)]
    {
      PrintMessage(kind, msg + " ### " + NULL_TEXT);
    }

    /** printMessage(kind, msg, e, a): e must be null. */
    method PrintMessageForMirror(kind: DiagnosticKind, msg: string, e: Option<Element>, a: Option<AnnotationMirror>)
      requires e.None?
      modifies messages
      ensures messages.elements ==
                old(messages.elements) + [StoredMessage(NoElement, kind, msg + " ### " + NULL_TEXT + " # " + MirrorText(a))]
    {
      PrintMessage(kind, msg + " ### " + NULL_TEXT + " # " + MirrorText(a));
    }

    /** printMessage(kind, msg, e, a, v): e must be null. */
    method PrintMessageForValue(kind: DiagnosticKind, msg: string, e: Option<Element>,
                                a: Option<AnnotationMirror>, v: Option<AnnotationValue>)
      requires e.None?
      modifies messages
      ensures messages.elements ==
                old(messages.elements)
                + [StoredMessage(NoElement, kind, msg + " ### " + NULL_TEXT + " # " + MirrorText(a) + "=" + ValueText(v))]
    {
      PrintMessage(kind, msg + " ### " + NULL_TEXT + " # " + MirrorText(a) + "=" + ValueText(v));
    }

    /** getMessages(element, kind): the loop over the stored messages. */
    method GetMessages(target: Elemental, kind: DiagnosticKind) returns (list: seq<string>)
      ensures list == Selected(messages.elements, target, kind)
    {
      var log := messages.elements;
      list := [];
      var i := 0;
      while i < |log|
        invariant 0 <= i <= |log|
        invariant list == Selected(log[..i], target, kind)
      {
        Seqs.MapFilterSnoc(Text, log[..i], Selector(target, kind), log[i]);
        assert log[..i + 1] == log[..i] + [log[i]];
        if (target == AnyElement || SameObject(log[i].elemental, target)) && log[i].kind == kind {
          list := list + [log[i].text];
        }
        i := i + 1;
      }
      assert log[..i] == log;
    }

    /** getMessages(): the stored list itself, not a copy. */
    method GetAllMessages() returns (list: MessageList)
      ensures list == messages
    {
      list := messages;
    }
  }

  /** A text is in the query result exactly when some stored message with
      that text is selected; the result keeps the log's order. */
  lemma SelectedExactly(log: seq<StoredMessage>, target: Elemental, kind: DiagnosticKind, x: string)
    ensures x in Selected(log, target, kind) <==> exists m :: m in log && Selects(target, kind, m) && m.text == x
    ensures Seqs.IsSubsequence(Selected(log, target, kind), Seqs.Map(Text, log))
  {
    var p := Selector(target, kind);
    var kept := Seqs.Filter(log, p);
    if x in Selected(log, target, kind) {
      var i :| 0 <= i < |kept| && Seqs.Map(Text, kept)[i] == x;
      assert kept[i] in kept;
    }
    if m :| m in log && Selects(target, kind, m) && m.text == x {
      Seqs.FilterKeeps(log, p, m);
      var i :| 0 <= i < |kept| && kept[i] == m;
      assert Seqs.Map(Text, kept)[i] == x;
    }
    Seqs.FilterIsSubsequence(log, p);
    Seqs.MapSubsequence(Text, kept, log);
  }

  /** What a query for one element finds, a query for ANY_ELEMENT finds too,
      in the same order, so it finds at least as many messages. */
  lemma AnyElementFindsMore(log: seq<StoredMessage>, target: Elemental, kind: DiagnosticKind)
    ensures Seqs.IsSubsequence(Selected(log, target, kind), Selected(log, AnyElement, kind))
    ensures |Selected(log, target, kind)| <= |Selected(log, AnyElement, kind)|
  {
    Seqs.FilterWeaker(log, Selector(target, kind), Selector(AnyElement, kind));
    Seqs.MapSubsequence(Text, Seqs.Filter(log, Selector(target, kind)), Seqs.Filter(log, Selector(AnyElement, kind)));
    Seqs.SubsequenceLength(Selected(log, target, kind), Selected(log, AnyElement, kind));
  }

  /** message() only ever extends what a query finds: the query over the
      longer log starts with the query over the shorter one. */
  lemma {:induction false} SelectedGrows(log: seq<StoredMessage>, more: seq<StoredMessage>, target: Elemental, kind: DiagnosticKind)
    ensures Selected(log + more, target, kind) == Selected(log, target, kind) + Selected(more, target, kind)
    ensures Selected(log, target, kind) <= Selected(log + more, target, kind)
  {
    var p := Selector(target, kind);
    Seqs.FilterAppend(log, more, p);
    Seqs.MapAppend(Text, Seqs.Filter(log, p), Seqs.Filter(more, p));
  }

  /** A query about a wrapper finds a message about a wrapper exactly when
      they are the same object: two wrappers of one and the same element
      are told apart. */
  lemma WrappersComparedByIdentity(m: StoredMessage, target: Elemental)
    requires m.elemental.ElementalOf? && target.ElementalOf?
    ensures Selects(target, m.kind, m) <==> m.elemental.id == target.id
    ensures m.elemental.element == target.element && m.elemental.id != target.id ==>
              Selected([m], target, m.kind) == []
  {
    assert Seqs.Filter([m], Selector(target, m.kind)) == (if Selects(target, m.kind, m) then [m] else []) by {
      assert [m][1..] == [];
    }
  }
}
