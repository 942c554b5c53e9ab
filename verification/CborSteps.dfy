/** What it means for a cursor over the input to follow the grammar, step by step. */
module CborSteps {
  import opened Bytes
  import opened Cbor

  /** A read from `from` did what the grammar says: failed, or took its value and moved there. */
  ghost predicate Agrees<T(!new)>(r: Result<T>, p: Parsed<T>, from: nat, pos: nat) {
    match p
    case Fail => r.Err?
    case Got(v, n) => r == Ok(v) && pos == from + n
  }

  /** Results already read, in front of what the rest of the input gives. */
  function Prepend<T>(vs: seq<T>, used: nat, p: Parsed<seq<T>>): Parsed<seq<T>> {
    match p
    case Fail => Fail
    case Got(rest, n) => Got(vs + rest, used + n)
  }

  lemma PrependNone<T>(p: Parsed<seq<T>>)
    ensures Prepend([], 0, p) == p
  {
    if p.Got? {
      assert [] + p.value == p.value;
    }
  }

  lemma PrependOne<T>(vs: seq<T>, used: nat, v: T, n: nat, p: Parsed<seq<T>>)
    ensures Prepend(vs, used, Prepend([v], n, p)) == Prepend(vs + [v], used + n, p)
  {
    if p.Got? {
      assert vs + ([v] + p.value) == vs + [v] + p.value;
    }
  }

  /** The previous key of the grammar: the empty string stands for none. */
  function Previous(key: Option<seq<byte>>): seq<byte> {
    if key.None? then [] else key.value
  }

  // ----- the loop over array items -----

  /** The loop stands at `pos`: `done` is what it has read since `start`, and `left` items remain. */
  ghost predicate ItemsRead(b: seq<byte>, start: nat, count: nat, depth: nat, done: seq<Value>, pos: nat, left: nat) {
    && start <= pos <= |b|
    && ParseItems(b[start..], count, depth) == Prepend(done, pos - start, ParseItems(b[pos..], left, depth))
  }

  lemma ItemsStart(b: seq<byte>, start: nat, count: nat, depth: nat)
    requires start <= |b|
    ensures ItemsRead(b, start, count, depth, [], start, count)
  {
    PrependNone(ParseItems(b[start..], count, depth));
  }

  lemma ItemStep(s: seq<byte>, more: nat, depth: nat, v: Value, n: nat, s': seq<byte>, left: nat)
    requires Parse(s, depth) == Got(v, n) && s[n..] == s' && more == left + 1
    ensures ParseItems(s, more, depth) == Prepend([v], n, ParseItems(s', left, depth))
  {
    assert more != 0 && more - 1 == left;
    var first := Parse(s, depth);
    assert s[first.len..] == s';
  }

  lemma ItemsNext(b: seq<byte>, start: nat, count: nat, depth: nat, done: seq<Value>, from: nat, more: nat,
                  v: Value, pos: nat, left: nat)
    requires ItemsRead(b, start, count, depth, done, from, more) && more == left + 1
    requires from <= pos <= |b| && Parse(b[from..], depth) == Got(v, pos - from)
    ensures ItemsRead(b, start, count, depth, done + [v], pos, left)
  {
    var (s, s', n, used) := (b[from..], b[pos..], pos - from, from - start);
    assert s[n..] == s';
    ItemStep(s, more, depth, v, n, s', left);
    PrependOne(done, used, v, n, ParseItems(s', left, depth));
  }

  lemma ItemsStop(b: seq<byte>, start: nat, count: nat, depth: nat, done: seq<Value>, pos: nat, more: nat)
    requires ItemsRead(b, start, count, depth, done, pos, more) && more > 0 && Parse(b[pos..], depth) == Fail
    ensures ParseItems(b[start..], count, depth) == Fail
  {
  }

  lemma ItemsDone(b: seq<byte>, start: nat, count: nat, depth: nat, done: seq<Value>, pos: nat)
    requires ItemsRead(b, start, count, depth, done, pos, 0)
    ensures ParseItems(b[start..], count, depth) == Got(done, pos - start)
  {
    assert done + [] == done;
  }

  // ----- the loop over map entries -----

  /** The same for entries; `prev` is the last key read. */
  ghost predicate EntriesRead(b: seq<byte>, start: nat, count: nat, depth: nat, done: seq<Entry>, pos: nat, left: nat,
                              prev: seq<byte>) {
    && start <= pos <= |b|
    && ParseEntries(b[start..], count, depth, []) == Prepend(done, pos - start, ParseEntries(b[pos..], left, depth, prev))
  }

  lemma EntriesStart(b: seq<byte>, start: nat, count: nat, depth: nat)
    requires start <= |b|
    ensures EntriesRead(b, start, count, depth, [], start, count, [])
  {
    PrependNone(ParseEntries(b[start..], count, depth, []));
  }

  lemma EntryStep(s: seq<byte>, more: nat, depth: nat, prev: seq<byte>, e: RawEntry, n: nat,
                  s': seq<byte>, left: nat, key: seq<byte>)
    requires ParseEntry(s, depth, prev) == Got(e, n) && s[n..] == s' && more == left + 1
    requires s[..e.keyLen] == key
    ensures ParseEntries(s, more, depth, prev) == Prepend([e.entry], n, ParseEntries(s', left, depth, key))
  {
    assert more != 0 && more - 1 == left;
    var first := ParseEntry(s, depth, prev);
    assert s[first.len..] == s' && s[..first.value.keyLen] == key;
  }

  lemma EntriesNext(b: seq<byte>, start: nat, count: nat, depth: nat, done: seq<Entry>, from: nat, more: nat, prev: seq<byte>,
                    e: RawEntry, pos: nat, left: nat, key: seq<byte>)
    requires EntriesRead(b, start, count, depth, done, from, more, prev) && more == left + 1
    requires from <= pos <= |b| && ParseEntry(b[from..], depth, prev) == Got(e, pos - from)
    requires from + e.keyLen <= pos && key == b[from..from + e.keyLen]
    ensures EntriesRead(b, start, count, depth, done + [e.entry], pos, left, key)
  {
    var (s, s', n, used) := (b[from..], b[pos..], pos - from, from - start);
    assert s[n..] == s' && s[..e.keyLen] == key;
    EntryStep(s, more, depth, prev, e, n, s', left, key);
    PrependOne(done, used, e.entry, n, ParseEntries(s', left, depth, key));
  }

  lemma EntriesStop(b: seq<byte>, start: nat, count: nat, depth: nat, done: seq<Entry>, pos: nat, more: nat, prev: seq<byte>)
    requires EntriesRead(b, start, count, depth, done, pos, more, prev) && more > 0
    requires ParseEntry(b[pos..], depth, prev) == Fail
    ensures ParseEntries(b[start..], count, depth, []) == Fail
  {
  }

  lemma EntriesDone(b: seq<byte>, start: nat, count: nat, depth: nat, done: seq<Entry>, pos: nat, prev: seq<byte>)
    requires EntriesRead(b, start, count, depth, done, pos, 0, prev)
    ensures ParseEntries(b[start..], count, depth, []) == Got(done, pos - start)
  {
    assert done + [] == done;
  }
}
