/**
 * The conversation store: the global `conversation` array of 25,000
 * role/content entries and the `conversation_count` that says how many are
 * in use. Entries are only ever appended.
 */
module Conversation {
  import opened Wrappers
  import opened CStrings

  const MaxEntries: nat := 25000
  /** sizeof(role) - 1: PADDING - 1. */
  const RoleCapacity: nat := 511
  /** sizeof(content) - 1: RESPONSE_BUFFER_SIZE + PADDING - 1. */
  const ContentCapacity: nat := 64511

  datatype Entry = Entry(role: string, content: string)

  /** A slot that was never written: the zero-initialised global. */
  const Blank := Entry("", "")

  /**
   * The libcurl calls append makes: whether `curl_easy_init` succeeded and
   * what `curl_easy_escape` (percent-encoding, section 2.1 of RFC 3986)
   * returns for a content string, `None` standing for a NULL result.
   */
  datatype Curl = Curl(initOk: bool, escape: string -> Option<string>)

  /**
   * The entry append writes into a free slot: the role cut to its buffer; the
   * encoded content, or the raw content when encoding fails, cut to its buffer;
   * and, when curl cannot be initialised, a content left as it was, blank.
   */
  function Stored(role: string, content: string, curl: Curl): (e: Entry)
    ensures |e.role| <= RoleCapacity && |e.content| <= ContentCapacity
    ensures !curl.initOk ==> e.content == ""
  {
    var text :=
      if !curl.initOk then ""
      else match curl.escape(content)
        case Some(encoded) => encoded
        case None => content;
    Entry(Truncate(role, RoleCapacity), Truncate(text, ContentCapacity))
  }

  /** The history after one append: one more entry below capacity, none at it. */
  function Appended(h: seq<Entry>, e: Entry): seq<Entry> {
    if |h| < MaxEntries then h + [e] else h
  }

  /** The history after a run of appends, in order. */
  function AppendedAll(h: seq<Entry>, es: seq<Entry>): seq<Entry>
    decreases |es|
  {
    if es == [] then h else AppendedAll(Appended(h, es[0]), es[1..])
  }

  function Min(a: int, b: int): int { if a <= b then a else b }

  /**
   * A run of appends keeps the history, adds the new entries in order, and
   * drops exactly those that arrive after the store is full.
   */
  lemma {:induction false} AppendedAllKeepsOrder(h: seq<Entry>, es: seq<Entry>)
    requires |h| <= MaxEntries
    ensures AppendedAll(h, es) == h + es[..Min(|es|, MaxEntries - |h|)]
    decreases |es|
  {
    if es != [] {
      var h' := Appended(h, es[0]);
      AppendedAllKeepsOrder(h', es[1..]);
      if |h| < MaxEntries {
        assert h' == h + [es[0]];
        var k := Min(|es[1..]|, MaxEntries - |h'|);
        assert es[1..][..k] == es[1..1 + k];
        assert [es[0]] + es[1..1 + k] == es[..1 + k];
      }
    }
  }

  class ConversationStore {
    var entries: array<Entry>
    var count: nat

    ghost predicate Valid()
      reads this, entries
    {
      && entries.Length == MaxEntries
      && count <= MaxEntries
      && forall i :: count <= i < MaxEntries ==> entries[i] == Blank
    }

    /** The entries in use, oldest first: what is sent to the model. */
    ghost function History(): seq<Entry>
      reads this, entries
      requires Valid()
    {
      entries[..count]
    }

    constructor ()
      ensures Valid() && fresh(entries) && History() == []
    {
      entries := new Entry[MaxEntries](_ => Blank);
      count := 0;
    }

    /** append_conversation_entry(role, content). */
    method Append(role: string, content: string, curl: Curl)
      requires Valid()
      modifies this, entries
      ensures Valid() && entries == old(entries)
      ensures History() == Appended(old(History()), Stored(role, content, curl))
    {
      if count < MaxEntries {
        // Without curl the content field is not written: it keeps its blank value.
        var text := entries[count].content;
        if curl.initOk {
          match curl.escape(content)
          case Some(encoded) => text := Truncate(encoded, ContentCapacity);
          case None => text := Truncate(content, ContentCapacity);
        }
        entries[count] := Entry(Truncate(role, RoleCapacity), text);
        count := count + 1;
      }
    }
  }
}
