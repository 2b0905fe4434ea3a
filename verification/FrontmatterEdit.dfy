/** Splicing of frontmatter blocks: removal of keys from every block, and the update of one
    block with what a later scan reads back. */
module FrontmatterEdit {
  import opened Basics
  import opened Text
  import opened FrontmatterScan

  function BodyText(content: string, block: Block): string
    requires block.body.start <= block.body.end <= |content|
  {
    content[block.body.start..block.body.end]
  }

  function Spliced(content: string, block: Block, body: string): string
    requires block.body.start <= block.body.end <= |content|
  {
    content[..block.body.start] + body + content[block.body.end..]
  }

  // ------------------------------------------------------------ remove_frontmatter_keys

  // `strip` stands for the substitution that drops one key from a block's text.
  function Pruned(strip: (string, string) -> string, key: string, content: string, block: Block): string
    requires block.body.start <= block.body.end <= |content|
  {
    if key in block.keys then strip(key, BodyText(content, block)) else BodyText(content, block)
  }

  // All bodies replaced at once, the text between them copied.
  function Rebuild(strip: (string, string) -> string, key: string, content: string, blocks: seq<Block>,
                   pos: nat): string
    requires pos <= |content| && Apart(blocks, pos, |content|)
  {
    if blocks == [] then content[pos..]
    else
      content[pos..blocks[0].body.start] + Pruned(strip, key, content, blocks[0])
      + Rebuild(strip, key, content, blocks[1..], blocks[0].body.end)
  }

  function RemoveKey(space: char -> bool, parser: Parser, strip: (string, string) -> string, content: string,
                     key: string): string {
    BlocksApart(space, parser, content);
    Rebuild(strip, key, content, Blocks(space, parser, content), 0)
  }

  function RemoveAll(space: char -> bool, parser: Parser, strip: (string, string) -> string, content: string,
                     keys: seq<string>): string
    decreases |keys|
  {
    if keys == [] then content
    else RemoveAll(space, parser, strip, RemoveKey(space, parser, strip, content, keys[0]), keys[1..])
  }

  // Removing a key copies the text between the bodies, puts every body that holds the key
  // through the substitution and keeps the others; several keys go one after the other.
  lemma RebuildMeans(strip: (string, string) -> string, key: string, content: string, blocks: seq<Block>, pos: nat)
    requires pos <= |content| && Apart(blocks, pos, |content|)
    ensures blocks == [] ==> Rebuild(strip, key, content, blocks, pos) == content[pos..]
    ensures blocks != [] ==>
      var start, end := blocks[0].body.start, blocks[0].body.end;
      && pos <= start <= end <= |content| && Apart(blocks[1..], end, |content|)
      && Rebuild(strip, key, content, blocks, pos)
         == content[pos..start]
          + (if key in blocks[0].keys then strip(key, content[start..end]) else content[start..end])
          + Rebuild(strip, key, content, blocks[1..], end)
  {}

  lemma {:induction false} RemoveAllSnoc(space: char -> bool, parser: Parser, strip: (string, string) -> string,
                                         content: string, keys: seq<string>, key: string)
    ensures RemoveAll(space, parser, strip, content, []) == content
    ensures RemoveAll(space, parser, strip, content, keys + [key])
         == RemoveKey(space, parser, strip, RemoveAll(space, parser, strip, content, keys), key)
    decreases |keys|
  {
    hide RemoveKey;
    if keys == [] {
      assert [] + [key] == [key] && [key][1..] == [];
    } else {
      assert (keys + [key])[1..] == keys[1..] + [key];
      RemoveAllSnoc(space, parser, strip, RemoveKey(space, parser, strip, content, keys[0]), keys[1..], key);
    }
  }

  lemma ApartDrop(blocks: seq<Block>, hi: nat, i: nat)
    requires Apart(blocks, 0, hi) && i < |blocks|
    ensures Apart(blocks[i..], 0, hi) && Apart(blocks[i + 1..], 0, hi) && Apart(blocks[i + 1..], blocks[i].body.end, hi)
    ensures blocks[i].body.start <= blocks[i].body.end <= hi
  {}

  // Starting the rebuild earlier only copies more.
  lemma RebuildFrom(strip: (string, string) -> string, key: string, content: string, blocks: seq<Block>, pos: nat)
    requires pos <= |content| && Apart(blocks, pos, |content|) && Apart(blocks, 0, |content|)
    ensures Rebuild(strip, key, content, blocks, 0) == content[..pos] + Rebuild(strip, key, content, blocks, pos)
  {
    hide Apart, Pruned;
    if blocks != [] {
      ApartFirst(blocks, pos, |content|);
      ApartFirst(blocks, 0, |content|);
      var b := blocks[0];
      Copied(content, pos, b.body.start, Pruned(strip, key, content, b),
             Rebuild(strip, key, content, blocks[1..], b.body.end));
    }
  }

  lemma Copied(content: string, i: nat, j: nat, p: string, rest: string)
    requires i <= j <= |content|
    ensures content[0..j] + p + rest == content[..i] + (content[i..j] + p + rest)
  {
    assert content[0..j] == content[..i] + content[i..j];
  }

  lemma ApartFirst(blocks: seq<Block>, lo: nat, hi: nat)
    requires Apart(blocks, lo, hi) && blocks != []
    ensures lo <= blocks[0].body.start <= blocks[0].body.end <= hi && Apart(blocks[1..], blocks[0].body.end, hi)
  {}

  // Splicing block i into the text whose later blocks are already rewritten, with the offsets of the old text.
  lemma SpliceBack(strip: (string, string) -> string, key: string, content: string, blocks: seq<Block>, i: nat)
    requires Apart(blocks, 0, |content|) && i < |blocks|
    ensures Apart(blocks[i..], 0, |content|) && Apart(blocks[i + 1..], 0, |content|)
    ensures var b, cur := blocks[i], Rebuild(strip, key, content, blocks[i + 1..], 0);
      && b.body.start <= b.body.end <= |cur| && b.body.end <= |content|
      && BodyText(cur, b) == BodyText(content, b)
      && Rebuild(strip, key, content, blocks[i..], 0) == Spliced(cur, b, Pruned(strip, key, content, b))
  {
    hide Apart, Pruned;
    var b := blocks[i];
    ApartDrop(blocks, |content|, i);
    RebuildFrom(strip, key, content, blocks[i + 1..], b.body.end);
    assert blocks[i..][1..] == blocks[i + 1..];
    var cur := Rebuild(strip, key, content, blocks[i + 1..], 0);
    var rest := Rebuild(strip, key, content, blocks[i + 1..], b.body.end);
    assert cur == content[..b.body.end] + rest;
    assert cur[..b.body.start] == content[..b.body.start] && cur[b.body.end..] == rest;
  }

  method RemoveFrontmatterKeys(space: char -> bool, parser: Parser, strip: (string, string) -> string,
                               original: string, keys: seq<string>)
    returns (content: string)
    ensures content == RemoveAll(space, parser, strip, original, keys)
  {
    hide Rebuild, Apart, Blocks;
    content := original;
    if keys == [] {
      return;
    }
    for k := 0 to |keys|
      invariant RemoveAll(space, parser, strip, content, keys[k..]) == RemoveAll(space, parser, strip, original, keys)
    {
      var key := keys[k];
      ghost var before := content;
      var blocks := IterFrontmatterBlocks(space, parser, content);
      BlocksApart(space, parser, content);
      RebuildNone(strip, key, before, blocks);
      for i := |blocks| downto 0
        invariant Apart(blocks[i..], 0, |before|)
        invariant content == Rebuild(strip, key, before, blocks[i..], 0)
      {
        var block := blocks[i];
        SpliceBack(strip, key, before, blocks, i);
        if key !in block.keys {
          assert content[..block.body.start] + BodyText(content, block) + content[block.body.end..] == content;
          continue;
        }
        var body := strip(key, content[block.body.start..block.body.end]);
        content := content[..block.body.start] + body + content[block.body.end..];
      }
      assert blocks[0..] == blocks;
      assert keys[k..][1..] == keys[k + 1..];
    }
    assert keys[|keys|..] == [];
  }

  lemma RebuildNone(strip: (string, string) -> string, key: string, content: string, blocks: seq<Block>)
    ensures Apart(blocks[|blocks|..], 0, |content|)
    ensures Rebuild(strip, key, content, blocks[|blocks|..], 0) == content
  {}

  // A key that no block has leaves the text as it is.
  lemma {:induction false} RebuildIdle(strip: (string, string) -> string, key: string, content: string,
                                       blocks: seq<Block>, pos: nat)
    requires pos <= |content| && Apart(blocks, pos, |content|)
    requires forall b | b in blocks :: key !in b.keys
    ensures Rebuild(strip, key, content, blocks, pos) == content[pos..]
  {
    if blocks != [] {
      var b := blocks[0];
      RebuildIdle(strip, key, content, blocks[1..], b.body.end);
      assert content[pos..] == content[pos..b.body.start] + content[b.body.start..b.body.end] + content[b.body.end..];
    }
  }

  lemma AbsentKeyIgnored(space: char -> bool, parser: Parser, strip: (string, string) -> string, content: string,
                         key: string)
    requires forall b | b in Blocks(space, parser, content) :: key !in b.keys
    ensures RemoveKey(space, parser, strip, content, key) == content
  {
    BlocksApart(space, parser, content);
    RebuildIdle(strip, key, content, Blocks(space, parser, content), 0);
  }

  // ------------------------------------------------------------ update_frontmatter

  // The first block with an id, or the first block.
  function Target(blocks: seq<Block>): (t: nat)
    requires blocks != []
    ensures t < |blocks|
    ensures blocks[t].isCanonical || (t == 0 && forall b | b in blocks :: !b.isCanonical)
    ensures forall i | 0 <= i < t :: !blocks[i].isCanonical
  {
    if blocks[0].isCanonical || |blocks| == 1 then 0
    else
      var t := Target(blocks[1..]);
      if blocks[1..][t].isCanonical then t + 1 else 0
  }

  method CanonicalBlock(blocks: seq<Block>) returns (found: Option<Block>)
    ensures found.None? <==> forall b | b in blocks :: !b.isCanonical
    ensures blocks != [] && found.Some? ==> found.value == blocks[Target(blocks)]
  {
    for i := 0 to |blocks|
      invariant forall j | 0 <= j < i :: !blocks[j].isCanonical
    {
      if blocks[i].isCanonical {
        return Some(blocks[i]);
      }
    }
    return None;
  }

  function Prepended(dumped: string, content: string): string {
    "---\n" + dumped + "\n---\n" + content
  }

  // `merge` loads the block's text, applies the updates and dumps it, or raises; `dumped` is the
  // dump of the updates alone.
  method UpdateFrontmatter(space: char -> bool, parser: Parser, merge: string -> Option<string>, dumped: string,
                           content: string)
    returns (updated: Option<string>)
    ensures var blocks := Blocks(space, parser, content);
      if blocks == [] then updated == Some(Prepended(dumped, content))
      else
        var block := blocks[Target(blocks)];
        && block.body.start <= block.body.end <= |content|
        && var merged := merge(BodyText(content, block));
        updated == if merged.None? then None
                   else Some(content[..block.body.start] + merged.value + content[block.body.end..])
    ensures var blocks := Blocks(space, parser, content);
      blocks != [] ==>
        && (blocks[Target(blocks)].isCanonical || (Target(blocks) == 0 && forall b | b in blocks :: !b.isCanonical))
        && forall i | 0 <= i < Target(blocks) :: !blocks[i].isCanonical
  {
    hide Blocks, Target;
    var blocks := IterFrontmatterBlocks(space, parser, content);
    BlocksApart(space, parser, content);
    if blocks == [] {
      return Some("---\n" + dumped + "\n---\n" + content);
    }
    var found := CanonicalBlock(blocks);
    var block := if found.Some? then found.value else blocks[0];
    assert block == blocks[Target(blocks)];
    var merged := merge(content[block.body.start..block.body.end]);
    if merged.None? {
      return None;
    }
    return Some(content[..block.body.start] + merged.value + content[block.body.end..]);
  }
}
