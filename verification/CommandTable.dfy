/** The chained command table and the linear search it replaces. */
module CommandTable {
  import opened Machine
  import opened CStrings

  const TABLE_SIZE: int := 100
  const HASH_FACTOR: int := 739061

  /** A command as the shell declares it: name, handler and help text. */
  datatype Command<H> = Command(name: string, handler: H, help: string)

  /** A bucket's chain, newest first. Nodes are never changed once linked. */
  datatype Chain<H> = Nil | Node(command: Command<H>, next: Chain<H>)

  // ---- Hashing ----

  /** One step of the hash: characters are signed bytes. */
  function HashStep(h: Word, c: char): (r: Word) {
    (h + HASH_FACTOR * SignedByte(c)) % TWO_32
  }

  function SignedByte(c: char): (v: int) {
    var b := c as int % 0x100;
    if b < 0x80 then b else b - 0x100
  }

  function HashFrom(h: Word, key: string): (r: Word)
    decreases |key|
  {
    if |key| == 0 then h else HashFrom(HashStep(h, key[0]), key[1..])
  }

  /** One character more adds 739061 times its signed code, modulo 2^32. */
  lemma {:induction false} HashAppend(h: Word, key: string, c: char)
    requires (c as int) < 256
    ensures HashFrom(h, "") == h
    ensures HashFrom(h, key + [c]) ==
            (HashFrom(h, key) + 739061 * (if (c as int) < 128 then c as int else c as int - 256)) % 0x1_0000_0000
    decreases |key|
  {
    hide HashStep;
    if |key| == 0 {
      OneHashStep(h, c);
      assert key + [c] == [c] && [c][1..] == "";
    } else {
      assert (key + [c])[1..] == key[1..] + [c];
      HashAppend(HashStep(h, key[0]), key[1..], c);
    }
  }

  lemma OneHashStep(h: Word, c: char)
    requires (c as int) < 256
    ensures HashStep(h, c) == (h + 739061 * (if (c as int) < 128 then c as int else c as int - 256)) % 0x1_0000_0000
  {
  }

  function Bucket(key: string): (b: nat)
    ensures b < TABLE_SIZE
  {
    HashFrom(0, key) % TABLE_SIZE
  }

  method Hash(key: seq<char>, ghost t: string) returns (h: Word)
    requires Holds(key, t)
    ensures h == HashFrom(0, t)
  {
    h := 0;
    var i := 0;
    assert t[0..] == t;
    HoldsAt(key, t, 0);
    while key[i] != NUL
      invariant i <= |t| && HashFrom(h, t[i..]) == HashFrom(0, t)
      invariant key[i] == (if i < |t| then t[i] else NUL) && (key[i] == NUL <==> i == |t|)
      decreases |t| - i
    {
      assert t[i..][0] == t[i] && t[i..][1..] == t[i + 1..];
      h := HashStep(h, key[i]);
      i := i + 1;
      HoldsAt(key, t, i);
    }
  }

  // ---- What the table means ----

  /** The first handler for a key along a chain. */
  function Search<H>(chain: Chain<H>, key: string): (r: Option<H>) {
    match chain
    case Nil => None
    case Node(c, next) => if c.name == key then Some(c.handler) else Search(next, key)
  }

  /** The linear search over the declared commands: the first match. */
  function Find<H>(commands: seq<Command<H>>, key: string): (r: Option<H>) {
    if |commands| == 0 then None
    else if commands[0].name == key then Some(commands[0].handler)
    else Find(commands[1..], key)
  }

  /** The most recent registration of a key. */
  function Latest<H>(commands: seq<Command<H>>, key: string): (r: Option<H>) {
    if |commands| == 0 then None
    else
      var k := |commands| - 1;
      if commands[k].name == key then Some(commands[k].handler) else Latest(commands[..k], key)
  }

  /** The chain of bucket b after registering commands in order. */
  function ChainOf<H>(commands: seq<Command<H>>, b: int): (r: Chain<H>) {
    if |commands| == 0 then Nil
    else
      var k := |commands| - 1;
      var older := ChainOf(commands[..k], b);
      if Bucket(commands[k].name) == b then Node(commands[k], older) else older
  }

  predicate Distinct<H>(commands: seq<Command<H>>) {
    forall i, j :: 0 <= i < j < |commands| ==> commands[i].name != commands[j].name
  }

  /** Searching the one bucket a key hashes to finds its latest registration. */
  lemma {:induction false} BucketSearch<H>(commands: seq<Command<H>>, key: string)
    ensures Search(ChainOf(commands, Bucket(key)), key) == Latest(commands, key)
  {
    if |commands| > 0 {
      BucketSearch(commands[..|commands| - 1], key);
    }
  }

  lemma {:induction false} FindMeaning<H>(commands: seq<Command<H>>, key: string)
    ensures Find(commands, key) == None <==> forall c :: c in commands ==> c.name != key
    ensures Find(commands, key).Some? ==>
              exists i :: 0 <= i < |commands| && commands[i].name == key
                          && Find(commands, key) == Some(commands[i].handler)
                          && forall j :: 0 <= j < i ==> commands[j].name != key
  {
    if |commands| > 0 {
      assert commands == [commands[0]] + commands[1..];
      if commands[0].name != key {
        FindMeaning(commands[1..], key);
        if Find(commands, key).Some? {
          var i :| 0 <= i < |commands[1..]| && commands[1..][i].name == key
                   && Find(commands[1..], key) == Some(commands[1..][i].handler)
                   && forall j :: 0 <= j < i ==> commands[1..][j].name != key;
          assert commands[i + 1].name == key;
          forall j | 0 <= j < i + 1
            ensures commands[j].name != key
          {
            if j > 0 {
              assert commands[j] == commands[1..][j - 1];
            }
          }
        }
      }
    }
  }

  lemma {:induction false} LatestMeaning<H>(commands: seq<Command<H>>, key: string)
    ensures Latest(commands, key) == None <==> forall c :: c in commands ==> c.name != key
    ensures forall i :: 0 <= i < |commands| && commands[i].name == key
                        && (forall j :: i < j < |commands| ==> commands[j].name != key) ==>
                        Latest(commands, key) == Some(commands[i].handler)
  {
    if |commands| > 0 {
      var k := |commands| - 1;
      assert commands == commands[..k] + [commands[k]];
      LatestMeaning(commands[..k], key);
    }
  }

  /** With distinct names the table answers exactly as the linear search. */
  lemma LookupAgreesWithFind<H>(commands: seq<Command<H>>, key: string)
    requires Distinct(commands)
    ensures Search(ChainOf(commands, Bucket(key)), key) == Find(commands, key)
  {
    BucketSearch(commands, key);
    FindMeaning(commands, key);
    LatestMeaning(commands, key);
  }

  // ---- The help walk ----

  function Helps<H>(commands: seq<Command<H>>): (r: seq<string>) {
    if |commands| == 0 then [] else Helps(commands[..|commands| - 1]) + [commands[|commands| - 1].help]
  }

  lemma {:induction false} HelpsMeaning<H>(commands: seq<Command<H>>, i: nat)
    ensures |Helps(commands)| == |commands|
    ensures i < |commands| ==> Helps(commands)[i] == commands[i].help
    decreases |commands|
  {
    if |commands| > 0 {
      HelpsMeaning(commands[..|commands| - 1], i);
    }
  }

  function ChainHelps<H>(chain: Chain<H>): (r: seq<string>) {
    match chain
    case Nil => []
    case Node(c, next) => [c.help] + ChainHelps(next)
  }

  /** The help texts of buckets 0 .. n - 1, bucket by bucket. */
  function TableHelps<H>(commands: seq<Command<H>>, n: nat): (r: seq<string>) {
    if n == 0 then [] else TableHelps(commands, n - 1) + ChainHelps(ChainOf(commands, n - 1))
  }

  lemma {:induction false} TableHelpsOfNone<H>(commands: seq<Command<H>>, n: nat)
    requires |commands| == 0
    ensures TableHelps(commands, n) == []
  {
    if n > 0 {
      TableHelpsOfNone(commands, n - 1);
    }
  }

  /** Registering one more command adds its help text to the walk once, in its bucket. */
  lemma {:induction false} TableHelpsStep<H>(commands: seq<Command<H>>, n: nat)
    requires |commands| > 0
    ensures var k := |commands| - 1;
            multiset(TableHelps(commands, n)) ==
            multiset(TableHelps(commands[..k], n)) +
            (if Bucket(commands[k].name) < n then multiset{commands[k].help} else multiset{})
  {
    if n > 0 {
      TableHelpsStep(commands, n - 1);
    }
  }

  /** The walk over all buckets shows every registered command exactly once. */
  lemma {:induction false} WalkShowsEachOnce<H>(commands: seq<Command<H>>)
    ensures multiset(TableHelps(commands, TABLE_SIZE)) == multiset(Helps(commands))
  {
    if |commands| == 0 {
      TableHelpsOfNone(commands, TABLE_SIZE);
    } else {
      WalkShowsEachOnce(commands[..|commands| - 1]);
      TableHelpsStep(commands, TABLE_SIZE);
    }
  }

  // ---- The table in place ----

  class Table<H> {
    const buckets: array<Chain<H>>
    ghost var registered: seq<Command<H>>

    ghost predicate Valid()
      reads this, buckets
    {
      && buckets.Length == TABLE_SIZE
      && (forall b :: 0 <= b < TABLE_SIZE ==> buckets[b] == ChainOf(registered, b))
      && (forall c :: c in registered ==> NUL !in c.name)
    }

    constructor ()
      ensures Valid() && registered == [] && fresh(buckets)
    {
      buckets := new Chain<H>[TABLE_SIZE](_ => Nil);
      registered := [];
    }

    /** register_command */
    method Register(command: Command<H>)
      requires Valid() && NUL !in command.name
      modifies this, buckets
      ensures Valid() && registered == old(registered) + [command]
    {
      var h := Hash(command.name + [NUL], command.name);
      var index := h % TABLE_SIZE;
      buckets[index] := Node(command, buckets[index]);
      registered := registered + [command];
      assert registered[..|registered| - 1] == old(registered);
    }

    /** register_all_commands */
    method RegisterAll(commands: seq<Command<H>>)
      requires Valid() && forall c :: c in commands ==> NUL !in c.name
      modifies this, buckets
      ensures Valid() && registered == old(registered) + commands
    {
      for i := 0 to |commands|
        invariant Valid() && registered == old(registered) + commands[..i]
      {
        Register(commands[i]);
        assert commands[..i + 1] == commands[..i] + [commands[i]];
      }
      assert commands[..|commands|] == commands;
    }

    /** lookup_command */
    method Lookup(key: seq<char>, ghost t: string) returns (handler: Option<H>)
      requires Valid() && Holds(key, t)
      ensures handler == Latest(registered, t)
    {
      var h := Hash(key, t);
      var e := buckets[h % TABLE_SIZE];
      BucketSearch(registered, t);
      ChainNames(registered, h % TABLE_SIZE);
      while e.Node?
        invariant Search(e, t) == Latest(registered, t) && NamesOk(e)
        decreases e
      {
        var order := Strcmp(e.command.name + [NUL], key, e.command.name, t);
        if order == 0 {
          return Some(e.command.handler);
        }
        e := e.next;
      }
      return None;
    }

    /** cmd_help_new without an argument */
    method HelpAll() returns (lines: seq<string>)
      requires Valid()
      ensures lines == TableHelps(registered, TABLE_SIZE)
      ensures multiset(lines) == multiset(Helps(registered))
    {
      lines := [];
      for b := 0 to TABLE_SIZE
        invariant lines == TableHelps(registered, b)
      {
        var node := buckets[b];
        ghost var before := lines;
        while node.Node?
          invariant before + ChainHelps(buckets[b]) == lines + ChainHelps(node)
          decreases node
        {
          assert lines + ChainHelps(node) == lines + [node.command.help] + ChainHelps(node.next);
          lines := lines + [node.command.help];
          node := node.next;
        }
      }
      WalkShowsEachOnce(registered);
    }
  }

  predicate NamesOk<H>(chain: Chain<H>) {
    chain.Node? ==> NUL !in chain.command.name && NamesOk(chain.next)
  }

  lemma {:induction false} ChainNames<H>(commands: seq<Command<H>>, b: int)
    requires forall c :: c in commands ==> NUL !in c.name
    ensures NamesOk(ChainOf(commands, b))
  {
    if |commands| > 0 {
      ChainNames(commands[..|commands| - 1], b);
    }
  }

  /** find_command: the linear search over the declared commands. */
  method FindCommand<H>(commands: seq<Command<H>>, key: seq<char>, ghost t: string) returns (handler: Option<H>)
    requires Holds(key, t) && forall c :: c in commands ==> NUL !in c.name
    ensures handler == Find(commands, t)
  {
    assert commands[0..] == commands;
    for i := 0 to |commands|
      invariant Find(commands[i..], t) == Find(commands, t)
    {
      assert commands[i..][1..] == commands[i + 1..];
      var order := Strcmp(commands[i].name + [NUL], key, commands[i].name, t);
      if order == 0 {
        return Some(commands[i].handler);
      }
    }
    return None;
  }
}
