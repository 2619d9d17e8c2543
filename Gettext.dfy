/**
 * The catalog of src/lib.rs: messages stored under a key built from their
 * context and identifier, and the singular lookup `gettext`.
 */
module Gettext {
  import opened Wrappers

  /** The character `insert` puts between a context and an identifier. */
  const CONTEXT_SEPARATOR: char := '\U{4}'

  /** One translatable message: its identifier, optional context and plural, and its translations. */
  datatype Message = Message(id: string, context: Option<string>, plural: Option<string>, translated: seq<string>)
  {
    /** The singular translation: the first translated string, if there is one. */
    function Singular(): Option<string>
    {
      if translated == [] then None else Some(translated[0])
    }
  }

  /** The key a message is stored under: `context`, the separator and `id`, or `id` alone. */
  function KeyOf(msg: Message): (key: string)
    ensures msg.context.None? ==> key == msg.id
    ensures msg.context.Some? ==> |key| == |msg.context.value| + 1 + |msg.id|
    ensures msg.context.Some? ==> key[..|msg.context.value|] == msg.context.value
    ensures msg.context.Some? ==> key[|msg.context.value|] == CONTEXT_SEPARATOR
    ensures key[|key| - |msg.id|..] == msg.id
  {
    match msg.context
    case None => msg.id
    case Some(ctxt) => ctxt + [CONTEXT_SEPARATOR] + msg.id
  }

  /** The set of translations parsed from one MO file, keyed by `KeyOf`. */
  class Catalog {
    var strings: map<string, Message>

    /** An empty catalog. */
    constructor ()
      ensures strings == map[]
    {
      strings := map[];
    }

    /** Stores `msg` under its key, replacing any message stored there before. */
    method Insert(msg: Message)
      modifies this
      ensures strings == old(strings)[KeyOf(msg) := msg]
    {
      strings := strings[KeyOf(msg) := msg];
    }

    /**
     * The singular translation of the message stored under `msgId`, or
     * `msgId` itself when no message is stored there or it has no
     * translation.
     */
    function Gettext(msgId: string): (r: string)
      reads this
      ensures msgId in strings && strings[msgId].translated != [] ==> r == strings[msgId].translated[0]
      ensures msgId !in strings || strings[msgId].translated == [] ==> r == msgId
    {
      if msgId in strings then strings[msgId].Singular().UnwrapOr(msgId) else msgId
    }
  }

  // ---------------------------------------------------------------------
  // Keys
  // ---------------------------------------------------------------------

  /**
   * Keys tell messages apart: when no context holds the separator, two
   * messages share a key exactly when they have the same context and the
   * same identifier.
   */
  lemma KeysDistinct(a: Message, b: Message)
    requires a.context.Some? ==> CONTEXT_SEPARATOR !in a.context.value
    requires b.context.Some? ==> CONTEXT_SEPARATOR !in b.context.value
    requires CONTEXT_SEPARATOR !in a.id && CONTEXT_SEPARATOR !in b.id
    ensures KeyOf(a) == KeyOf(b) <==> a.context == b.context && a.id == b.id
  {
    var ka, kb := KeyOf(a), KeyOf(b);
    if ka == kb {
      match (a.context, b.context)
      case (None, None) =>
      case (Some(c), None) =>
        assert false;
      case (None, Some(c)) =>
        assert false;
      case (Some(c), Some(d)) =>
        SeparatorFirst(c, a.id, d, b.id);
    }
  }

  /** Two joined keys with separator-free contexts split at the same place. */
  lemma SeparatorFirst(c: string, x: string, d: string, y: string)
    requires CONTEXT_SEPARATOR !in c && CONTEXT_SEPARATOR !in d
    requires c + [CONTEXT_SEPARATOR] + x == d + [CONTEXT_SEPARATOR] + y
    ensures c == d && x == y
  {
    var k := c + [CONTEXT_SEPARATOR] + x;
    assert forall i | 0 <= i < |c| :: k[i] == c[i] != CONTEXT_SEPARATOR;
    assert forall i | 0 <= i < |d| :: k[i] == d[i] != CONTEXT_SEPARATOR;
    assert k[|c|] == CONTEXT_SEPARATOR && k[|d|] == CONTEXT_SEPARATOR;
    assert |c| == |d|;
    assert c == k[..|c|] == d;
    assert x == k[|c| + 1..] == y;
  }

  /** A message with a context is never stored under its bare identifier. */
  lemma ContextualKeyDiffers(msg: Message)
    requires msg.context.Some?
    ensures KeyOf(msg) != msg.id
  {
  }

  // ---------------------------------------------------------------------
  // Lookup after insertion
  // ---------------------------------------------------------------------

  /** A message without context inserted into a catalog is what `gettext` then finds under its identifier. */
  lemma InsertedFound(c: Catalog, before: map<string, Message>, msg: Message)
    requires c.strings == before[KeyOf(msg) := msg]
    requires msg.context.None?
    ensures c.Gettext(msg.id) == if msg.translated == [] then msg.id else msg.translated[0]
  {
  }

  /**
   * Inserting a message leaves `gettext` of every other key as it was:
   * `c` holds the catalog `d` held plus the insertion.
   */
  lemma InsertKeepsOthers(c: Catalog, d: Catalog, msg: Message, msgId: string)
    requires c.strings == d.strings[KeyOf(msg) := msg]
    requires msgId != KeyOf(msg)
    ensures c.Gettext(msgId) == d.Gettext(msgId)
  {
  }

  /** A message with a context is invisible to `gettext` of its bare identifier. */
  lemma ContextualHidden(c: Catalog, d: Catalog, msg: Message)
    requires c.strings == d.strings[KeyOf(msg) := msg]
    requires msg.context.Some?
    ensures c.Gettext(msg.id) == d.Gettext(msg.id)
  {
    ContextualKeyDiffers(msg);
    InsertKeepsOthers(c, d, msg, msg.id);
  }

  /** An empty catalog translates nothing. */
  lemma EmptyTranslatesNothing(c: Catalog, msgId: string)
    requires c.strings == map[]
    ensures c.Gettext(msgId) == msgId
  {
  }

  // ---------------------------------------------------------------------
  // The unit tests of src/lib.rs
  // ---------------------------------------------------------------------

  /** Inserting a message without and one with a context stores them under `thisisid` and `context\U{4}anotherid`. */
  method CatalogInsertExample() returns (keys: set<string>)
    ensures keys == {"context\U{4}anotherid", "thisisid"}
  {
    var cat := new Catalog();
    cat.Insert(Message("thisisid", None, None, []));
    cat.Insert(Message("anotherid", Some("context"), None, []));
    assert "context" + [CONTEXT_SEPARATOR] + "anotherid" == "context\U{4}anotherid";
    keys := cat.strings.Keys;
  }

  /** A translated message is found; an unknown identifier comes back unchanged. */
  method CatalogGettextExample() returns (found: string, missing: string)
    ensures found == "Tekstas" && missing == "Image"
  {
    var cat := new Catalog();
    cat.Insert(Message("Text", None, None, ["Tekstas"]));
    found := cat.Gettext("Text");
    missing := cat.Gettext("Image");
  }
}
