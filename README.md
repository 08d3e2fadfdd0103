# Drive2HTML core, modelled in Dafny

Drive2HTML is a Streamlit application. It lists a Google Drive folder and builds a folder tree from the
listing. It then reads every markdown file of a folder and its subfolders through a session cache, and
merges the YAML front matter of those files into one mapping. It also extracts bullet lists from
markdown sections, file and folder ids from Drive links, and the largest crop box of a given aspect ratio.
This project models that core and proves what it promises.

Modules, one concept each:

- `Wrappers`: `Option` and `Result`. They stand for Python's `None` returns and raised exceptions.
- `Values`: the Python values the core stores and merges. It also defines Python truthiness.
- `Text`: the string primitives.
  - `str.index` from a position.
  - `re.search` of a literal followed by `[a-zA-Z0-9_-]+`: the leftmost match and its greedy capture.
  - `str.split` on one character.
- `Links`: `get_file_id_from_link` and `extract_folder_id_from_url`.
- `Sections`: `extract_bullet_items_from_section`, with the regex, `strip`, `splitlines` and the bullet
  filter written out. It also has the definition the comment above the regex describes (see Findings).
- `DeepMerge`:
  - `deep_update`, as a loop over the keys of the new mapping, proved against the function `Merge`;
  - its list branch, as a loop proved against `ExtendUnique`;
  - `extract_yaml`, with YAML reading abstracted;
  - `extract_yamls`, as a loop proved against the fold `Aggregate`.
- `Remote`: the listed Drive entries, and a `Drive` object.
  - The object's download returns the text given by a content oracle, and logs every download.
  - The MIME-prefix filters of `get_images_in_folder` are also here.
- `Cache`: `st.session_state` as a `Session` object with a `store` map, and `get_or_cache_data` as its
  method `GetOrCache`.
- `Tree`: `build_tree`, as a method whose two loops are proved against `Folders`, `FolderOrder`,
  `Attach` and `RootsOf`.
- `Collect`: `collect`, as a recursive method over a tree.
  - It is proved against the pre-order walk `Preorder`, the serving fold `ServeAll` and the memo
    bookkeeping `RecordedAs`.
  - Acyclicity of the tree is a ghost rank map.
- `DriveHtml`: `get_largest_crop_fit` and `extract_file_id` of `Drive_HTML.py`.

## Model

| member | source | states |
|---|---|---|
| `Text.IndexFrom` | drive_module/drive_ops.py:50-51 | `str.index(pat, from)` returns the first occurrence at or after `from`; `None` (the `ValueError`) means there is no occurrence from there on |
| `Text.IndexFromFirst` | drive_module/drive_ops.py:50-51 | an occurrence with none before it (from `from` on) is exactly what `str.index` returns |
| `Text.IdRun` | drive_module/drive_ops.py:159 | the greedy `[a-zA-Z0-9_-]+` run from a position consists of id characters and stops at the end or at a non-id character |
| `Text.FirstCapture` | drive_module/drive_ops.py:159 | the leftmost position where the literal is followed by an id character; none before it; `None` when no position qualifies |
| `Text.MaximalIdRunUnique` | drive_module/drive_ops.py:159 | the greedy capture is determined by where it starts |
| `Text.RunCharAt` | drive_module/drive_ops.py:159 | every character of a maximal run sits in the text at its offset and is an id character |
| `Text.SearchId` | drive_module/drive_ops.py:159-162 | `re.search(lit + "([a-zA-Z0-9_-]+)")`: no match exactly when no position matches; otherwise a non-empty capture, which is the maximal run after the leftmost match |
| `Text.Split` | drive_module/drive_ops.py:250 | `split` gives at least one field; the first field holds no separator; there are two or more fields exactly when the separator occurs, and a text without the separator is its own single field |
| `Text.SplitFirst` | drive_module/drive_ops.py:250 | splitting `a + sep + b`, with no separator in `a`, gives `a` followed by the fields of `b` |
| `Links.FileIdFromLink` | drive_module/drive_ops.py:48-54 | a result is the text between the first `/d/` and the first `/view` after it; `None` exactly when there is no `/d/`, or no `/view` after the first one |
| `Links.FileIdAt` | drive_module/drive_ops.py:50-52 | given the two positions `str.index` finds, the result is the slice between them |
| `Links.ShareLinkStart` | drive_module/drive_ops.py:50 | in a link that starts with `pre + "/d/"`, and has no earlier `/d/`, the first `/d/` is at `len(pre)` |
| `Links.ShareLinkEnd` | drive_module/drive_ops.py:51 | after the `/d/`, an id without `/` followed by `/view` puts the first `/view` right after the id |
| `Links.ShareLinkPieces` | drive_module/drive_ops.py:48-54 | a link whose characters are a prefix, `/d/`, an id and `/view` gives back the id |
| `Links.FileIdFromShareLink` | drive_module/drive_ops.py:48-54 | round trip: `pre + "/d/" + id + "/view" + rest` gives back `id` (no `/d/` in `pre` before the marker, no `/` in `id`) |
| `Links.FolderIdFromUrl` | drive_module/drive_ops.py:157-162 | a result is non-empty, made of id characters, and is the greedy capture after the leftmost `/folders/` that is followed by an id character; `None` exactly when there is no such `/folders/` |
| `Links.FolderIdFromFolderUrl` | drive_module/drive_ops.py:157-162 | round trip: `pre + "/folders/" + id + rest` gives back `id` when `id` is a non-empty id and `rest` does not continue it |
| `Sections.SkipSpaces` | drive_module/drive_ops.py:88 | the greedy `\s*` from a position skips only whitespace and stops at the end or at a non-space |
| `Sections.ColonAfterName` | drive_module/drive_ops.py:88 | a colon found for `NAME\s*:` at a start lies after the name and is a `:` |
| `Sections.ColonAfterNameMatches` | drive_module/drive_ops.py:88 | with the name at `a`: a colon is found exactly when the name matches there ignoring case and only whitespace lies between it and the colon; otherwise no colon follows the name after whitespace alone |
| `Sections.ColonAt` | drive_module/drive_ops.py:88 | a header `##\s*NAME\s*:` starting at `i` ends at a colon after the `##` |
| `Sections.ColonAtMatches` | drive_module/drive_ops.py:88 | a header matches at `i` exactly when `##` is there and the name, then whitespace and a colon, follows at some start within the whitespace after `##`; the colon is the one of the latest such start, as the backtracking `\s*` gives it |
| `Sections.FindHeader` | drive_module/drive_ops.py:88-89 | `re.search` finds the leftmost header: it matches there, at no earlier position, and `None` means it matches nowhere |
| `Sections.HeaderColon` | drive_module/drive_ops.py:88-91 | the colon of the leftmost header is a `:` in the text; `None` exactly when no header matches anywhere |
| `Sections.BlockEnd` | drive_module/drive_ops.py:88 | the lazy `(.*?)` stops at the first `\n##\s` lookahead, or at the end (`\Z`) when there is none |
| `Sections.TrimLeft` | drive_module/drive_ops.py:97-98 | `lstrip` leaves no leading whitespace and is no longer than its input |
| `Sections.TrimLeftDropsSpaces` | drive_module/drive_ops.py:97-98 | `lstrip` leaves a suffix of its input, and only whitespace is removed before it |
| `Sections.TrimRight` | drive_module/drive_ops.py:97-98 | `rstrip` leaves a prefix of its input with no trailing whitespace |
| `Sections.TrimRightDropsSpaces` | drive_module/drive_ops.py:97-98 | `rstrip` removes only whitespace after the prefix it keeps |
| `Sections.Strip` | drive_module/drive_ops.py:97-98 | `strip` leaves no whitespace at either end |
| `Sections.StripDropsSpaces` | drive_module/drive_ops.py:97-98 | `strip` leaves a slice of the text with only whitespace before it and only whitespace after it |
| `Sections.StripKeeps` | drive_module/drive_ops.py:97-98 | a text with no whitespace at either end is its own `strip` |
| `Sections.LineEnd` | drive_module/drive_ops.py:97 | the end of a line is the first line break from there on, or the end of the text |
| `Sections.SplitLines` | drive_module/drive_ops.py:97 | no line returned by `splitlines` holds a line break; there are no lines exactly for the empty text |
| `Sections.SplitLinesKeepsText` | drive_module/drive_ops.py:97 | the lines of `splitlines`, concatenated, are the text with its line breaks removed |
| `Sections.SplitJoinedLines` | drive_module/drive_ops.py:97 | `splitlines` takes apart `"\n".join` of break-free lines whose last line is not empty |
| `Sections.Bullets` | drive_module/drive_ops.py:98 | the kept lines are stripped and start with `-`; there are no more of them than lines |
| `Sections.BulletMembers` | drive_module/drive_ops.py:98 | `x` is kept exactly when some line, stripped, is `x` and `x` starts with `-` |
| `Sections.BulletsAppend` | drive_module/drive_ops.py:98 | the filter keeps line order: filtering a concatenation concatenates the results |
| `Sections.ItemsOf` | drive_module/drive_ops.py:96-98 | every item of a block is a stripped line that starts with `-` |
| `Sections.ItemsOfMembers` | drive_module/drive_ops.py:96-98 | the items of a block are exactly the stripped lines of `block.strip().splitlines()` that start with `-` |
| `Sections.ItemsInLineOrder` | drive_module/drive_ops.py:96-98 | the items of a block whose lines run `a` and then `b` are those of `a` followed by those of `b` |
| `Sections.SectionAsWritten` | drive_module/drive_ops.py:88-94 | the block exists exactly when some header matches |
| `Sections.BulletItems` | drive_module/drive_ops.py:85-100 | no header gives `[]`; every item is a stripped bullet line |
| `Sections.BulletItemsMembers` | drive_module/drive_ops.py:85-100 | `x` is returned exactly when a header matches and `x` is a stripped line of its block that starts with `-` |
| `Sections.SectionCorrected` | drive_module/drive_ops.py:87 | as `SectionAsWritten`, with the block starting right after the colon |
| `Sections.BulletItemsCorrected` | drive_module/drive_ops.py:85-100 | no header gives `[]`; every item is a stripped bullet line |
| `Sections.BulletItemsCorrectedMembers` | drive_module/drive_ops.py:85-100 | under the correction, `x` is returned exactly when a header matches and `x` is a stripped line of its block that starts with `-` |
| `Sections.TrimLeftSkip` | drive_module/drive_ops.py:97 | whitespace skipped before `strip` changes nothing |
| `Sections.BlockEndFrom` | drive_module/drive_ops.py:88 | the lazy group ends at the same place from any start inside the block |
| `Sections.CorrectedBlock` | drive_module/drive_ops.py:87 | the corrected block runs from after the colon of the leftmost header to the next header |
| `Sections.AsWrittenBlock` | drive_module/drive_ops.py:88-94 | the block as written starts after the whitespace that follows the colon of the leftmost header |
| `Sections.CorrectedItems` | drive_module/drive_ops.py:94-100 | the corrected items are the items of the corrected block |
| `Sections.AsWrittenItems` | drive_module/drive_ops.py:94-100 | the items as written are the items of the block as written |
| `Sections.BlankBlockHasNoItems` | drive_module/drive_ops.py:97-98 | a block of whitespace gives no items |
| `Sections.EmptySectionHasNoItems` | drive_module/drive_ops.py:87 | under the correction, a section with nothing but whitespace before the next header has no items |
| `Sections.SkipInsideBlock` | drive_module/drive_ops.py:88 | on a section with some text, skipping the whitespace after the colon keeps the same end and the same stripped block |
| `Sections.SameStripSameItems` | drive_module/drive_ops.py:97-98 | two blocks that strip to the same text have the same items |
| `Sections.BlocksAgree` | drive_module/drive_ops.py:88-100 | the blocks as written and as corrected give the same items when the section holds some text |
| `Sections.SectionsWithTextAgree` | drive_module/drive_ops.py:88-100 | the code as written and the correction agree on every section that holds some text |
| `Sections.EmptyThenBulletHeader` | drive_module/drive_ops.py:88-89 | in `"##T:\n##\n-"` the `T` header is at 0 and its colon at 3 |
| `Sections.EmptyThenBulletBlocks` | drive_module/drive_ops.py:88 | in that document the corrected block is empty, and the block as written runs to the end |
| `Sections.EmptyThenBulletLines` | drive_module/drive_ops.py:97 | `"##\n-".splitlines()` is `["##", "-"]` |
| `Sections.EmptyThenBulletItems` | drive_module/drive_ops.py:97-98 | the block as written of that document gives `["-"]` |
| `Sections.EmptySectionTakesNextSection` | drive_module/drive_ops.py:88-100 | the code as written returns the next section's bullet `["-"]` for an empty `T` section; the correction returns `[]` |
| `Sections.SpacedNameHeader` | drive_module/drive_ops.py:88-89 | in `"## Tags:\n- a"` the header for the name ` Tags` is at 0 and its colon at 7: the `\s*` after `##` gives back the space the name begins with |
| `Sections.SpacedNameBlocks` | drive_module/drive_ops.py:88 | in that document the block as written is `"- a"`, running to the end |
| `Sections.SpacedNameItems` | drive_module/drive_ops.py:97-98 | the block `"- a"` gives the item `["- a"]` |
| `Sections.SpacedNameMatches` | drive_module/drive_ops.py:85-100 | a section whose name begins with a space is found: `"## Tags:\n- a"` with name ` Tags` returns `["- a"]` |
| `DeepMerge.ExtendUnique` | drive_module/drive_ops.py:123 | `extend` keeps the original list as a prefix |
| `DeepMerge.ExtendUniqueElements` | drive_module/drive_ops.py:123 | after `extend` the list holds exactly the old elements and those of `v` |
| `DeepMerge.ExtendUniqueNoDup` | drive_module/drive_ops.py:123 | a list without duplicates stays without duplicates |
| `DeepMerge.ExtendUniqueOrder` | drive_module/drive_ops.py:123 | the appended elements come from `v`, in `v`'s order |
| `DeepMerge.ExtendUniqueFresh` | drive_module/drive_ops.py:123 | no appended element was already in the list |
| `DeepMerge.ExtendUniqueKnown` | drive_module/drive_ops.py:123 | extending by elements already present changes nothing |
| `DeepMerge.ExtendList` | drive_module/drive_ops.py:122-123 | the element-by-element `extend` of the list branch computes `ExtendUnique` |
| `DeepMerge.DeepUpdate` | drive_module/drive_ops.py:116-128 | the loop over `u`'s keys leaves exactly `Merge(d, u)`, whatever the order of the keys |
| `DeepMerge.UpdateKey` | drive_module/drive_ops.py:119-127 | one key's update: a present key gets `MergeValue` of the old and new values, an absent key gets the new value, and all other keys are unchanged |
| `DeepMerge.MergedStep` | drive_module/drive_ops.py:118-127 | one key's update keeps the loop's state: merged keys as in `Merge`, pending keys as in `d` |
| `DeepMerge.MergedDone` | drive_module/drive_ops.py:128 | with no key left, the mapping is `Merge(d, u)` |
| `DeepMerge.MergeAt` | drive_module/drive_ops.py:118-127 | at a key of `u` the merged value is the recursive merge when `d` holds the key, `u`'s value otherwise |
| `DeepMerge.MergeCases` | drive_module/drive_ops.py:116-128 | the keys are those of both mappings; `d`-only keys keep their value; `u`-only keys take `u`'s; shared mappings merge recursively; shared lists extend; any other shared key is overwritten by `u` |
| `DeepMerge.MergeEmpty` | drive_module/drive_ops.py:116-128 | merging `{}` changes nothing, and merging into `{}` copies |
| `DeepMerge.MergeValueSelf` | drive_module/drive_ops.py:119-125 | a value merged with itself is itself |
| `DeepMerge.MergeSelf` | drive_module/drive_ops.py:116-128 | a mapping merged with itself is itself |
| `DeepMerge.MergeValueTwice` | drive_module/drive_ops.py:119-125 | merging the same value twice equals merging it once |
| `DeepMerge.MergeTwice` | drive_module/drive_ops.py:116-128 | `deep_update` is idempotent: applying the same `u` again changes nothing |
| `DeepMerge.MergeExample` | drive_module/drive_ops.py:116-128 | `{a:1, b:[1,2]}` updated by `{a:2, b:[2,3], c:5}` is `{a:2, b:[1,2,3], c:5}` |
| `DeepMerge.ExtractYaml` | drive_module/drive_ops.py:102-114 | a truthy parsed document is returned as it is; no block, a parse error or a falsy document give `{}` |
| `DeepMerge.AggregateErrSticks` | drive_module/drive_ops.py:137-140 | once a document has made `deep_update` fail, later documents do not matter |
| `DeepMerge.ExtractYamls` | drive_module/drive_ops.py:131-141 | the loop computes the left fold `Aggregate` of the documents from `{}` |
| `DeepMerge.AggregateFails` | drive_module/drive_ops.py:131-141 | the merge fails exactly when some document is truthy but not a mapping; the error names the first such document |
| `DeepMerge.AggregateKeys` | drive_module/drive_ops.py:131-141 | the merged keys are exactly the keys of all the documents' mappings |
| `DeepMerge.EmptyDocumentIgnored` | drive_module/drive_ops.py:138-140 | a document with empty extraction can be dropped anywhere in the list |
| `DeepMerge.RepeatedDocumentIgnored` | drive_module/drive_ops.py:131-141 | the same document twice in a row merges like once |
| `Remote.Drive.GetFileContent` | drive_module/drive_ops.py:145-155 | returns the file's text and logs one download of that id |
| `Remote.WithMimePrefix` | drive_module/drive_ops.py:62-71 | `(name, id)` is in the result exactly when some listed entry with that name and id has a MIME type with the prefix; the result is not longer than the listing |
| `Remote.WithMimePrefixAppend` | drive_module/drive_ops.py:62-71 | the filter keeps listing order: filtering a concatenation concatenates the results |
| `Remote.ImagesAndVideosDisjoint` | drive_module/drive_ops.py:56-72 | no entry is both an image and a video: the two lists together are no longer than the listing |
| `Cache.DepKey` | drive_module/drive_ops.py:75 | the fingerprint key is the key followed by `__deps` |
| `Cache.Record` | drive_module/drive_ops.py:79-81 | after a miss both keys are present, the key hits with the new fingerprint and value, and no other key changes |
| `Cache.Session.GetOrCache` | drive_module/drive_ops.py:74-82 | a hit returns the stored value and downloads nothing; a miss downloads the file once, returns its text and records it with the fingerprint |
| `Cache.RecordKeepsOtherHits` | drive_module/drive_ops.py:75-81 | recording one key keeps every other key's hit and value when neither key ends in `__deps` |
| `Cache.DepsSuffixCollides` | drive_module/drive_ops.py:75-81 | storing data under `key + "__deps"` destroys `key`'s fingerprint, so `key` misses |
| `Tree.AttachOne` | drive_module/drive_ops.py:217-229 | attaching one item keeps the node set and every node's name |
| `Tree.Attach` | drive_module/drive_ops.py:217-229 | the second loop keeps the node set and every node's name |
| `Tree.BuildTree` | drive_module/drive_ops.py:204-236 | `None` (the `IndexError`) exactly when no first parent lies outside the folder nodes; otherwise a candidate root, and the attached tree with a `ROOT` node at that root that lists every folder |
| `Tree.FolderPass` | drive_module/drive_ops.py:208-214 | the first loop builds one empty node per folder id; its key order is that of first insertion |
| `Tree.AttachPass` | drive_module/drive_ops.py:215-229 | the second loop computes `Attach` and the candidate set `RootsOf` |
| `Tree.AttachStep` | drive_module/drive_ops.py:217-224 | one more item is one more attachment step and perhaps one more candidate |
| `Tree.FolderOrderKeys` | drive_module/drive_ops.py:208-214 | the nodes are exactly the folder entries' ids; `list(tree.keys())` lists each once |
| `Tree.FolderNode` | drive_module/drive_ops.py:209-214 | a folder node carries the name of the last folder entry with its id, and starts empty |
| `Tree.AttachOneChildren` | drive_module/drive_ops.py:226-229 | one step appends a folder to its parent's subfolders and a markdown descriptor to its parent's files |
| `Tree.AttachChildren` | drive_module/drive_ops.py:217-229 | each node ends up with exactly its child folders and child markdown files, in listing order |
| `Tree.ChildFoldersAreFolders` | drive_module/drive_ops.py:226-227 | every subfolder id is a folder node |
| `Tree.RootsOfMembers` | drive_module/drive_ops.py:217-223 | the candidates are exactly the first parents that are not folder nodes |
| `Tree.BuiltTreeClosed` | drive_module/drive_ops.py:204-236 | in a built tree every subfolder, the root's included, is a node |
| `Tree.ChildFilesHaveBar` | drive_module/drive_ops.py:229 | every child file descriptor holds the bar separator |
| `Tree.BuiltTreeHasBars` | drive_module/drive_ops.py:229-235 | every file descriptor of a built tree holds the bar separator |
| `Tree.FolderNodeEmpty` | drive_module/drive_ops.py:210-214 | the first loop's nodes have no files and no subfolders |
| `Tree.CandidateIsNotFolder` | drive_module/drive_ops.py:222-234 | a root candidate is never a folder node, so `ROOT` replaces no folder and does not list itself |
| `Tree.DescriptorFields` | drive_module/drive_ops.py:229 | splitting a descriptor on the bar separator gives back the id and the modification time when neither holds a bar |
| `Tree.DescriptorIsMarkdown` | drive_module/drive_ops.py:229 | a descriptor ends in `.md` exactly when the file name does |
| `Tree.ExampleFolders` | drive_module/drive_ops.py:208-214 | on `A`, `B` (in `A`) and `f1` (markdown in `B`) the folder nodes are `A` and `B` |
| `Tree.ExampleChildren` | drive_module/drive_ops.py:226-229 | on that listing `A`'s subfolders are `["B"]` and `B`'s files are `f1`'s descriptor |
| `Tree.ExampleRoots` | drive_module/drive_ops.py:217-224 | on that listing there is no root candidate |
| `Tree.ExampleWithoutRoot` | drive_module/drive_ops.py:204-236 | that listing attaches as expected, but `list(root)[0]` raises `IndexError` |
| `Collect.BuiltTreeWellFormed` | drive_module/drive_ops.py:229 | a tree from `build_tree` meets `collect`'s demand that every `.md` descriptor holds the bar separator |
| `Collect.MdFiles` | drive_module/drive_ops.py:248-249 | the files read are exactly the listed files that end in `.md` |
| `Collect.Reached` | drive_module/drive_ops.py:259-260 | the folders a walk visits include the start and are nodes of the tree |
| `Collect.ReachedAll` | drive_module/drive_ops.py:259-260 | the folders the subfolder walks visit include every subfolder |
| `Collect.ServeAll` | drive_module/drive_ops.py:248-257 | one content per descriptor; at most one download per descriptor |
| `Collect.ServeAllAppend` | drive_module/drive_ops.py:248-262 | serving `a + b` is serving `a`, then serving `b` from the store `a` left |
| `Collect.MdKeyIsNotDepKey` | drive_module/drive_ops.py:252 | a `.md` cache key never ends in `__deps` |
| `Collect.CacheKeyInjective` | drive_module/drive_ops.py:252 | different descriptors have different cache keys |
| `Collect.RecordKeepsHolds` | drive_module/drive_ops.py:251-255 | a miss leaves every descriptor served before cached with its value |
| `Collect.HoldsSnoc` | drive_module/drive_ops.py:251-257 | the cached descriptors extend by one |
| `Collect.ServeAllCaches` | drive_module/drive_ops.py:251-257 | after serving, every served descriptor hits, with the value it was served as |
| `Collect.ServeOneConsistent` | drive_module/drive_ops.py:250-255 | one cache call on an agreeing session returns the file's text and leaves the session agreeing |
| `Collect.ServeAllConsistent` | drive_module/drive_ops.py:248-257 | serving a list of descriptors from an agreeing session leaves it agreeing |
| `Collect.ServeAllContents` | drive_module/drive_ops.py:248-257 | from an agreeing session, the `i`-th content is the text of the `i`-th descriptor's file |
| `Collect.TextsSnoc` | drive_module/drive_ops.py:256-257 | appending one descriptor and its file's text keeps contents and descriptors in step |
| `Collect.FreshServeIsTexts` | drive_module/drive_ops.py:248-257 | from an empty session every served content is the text of its file |
| `Collect.ServeAllCached` | drive_module/drive_ops.py:76-78 | when every descriptor hits, serving downloads nothing and changes nothing |
| `Collect.CollectAgain` | drive_module/drive_ops.py:241-266 | a rerun of the same walk in the same session downloads nothing and yields the same contents |
| `Collect.RepeatedWalkIsCached` | drive_module/drive_ops.py:241-266 | a walk served twice downloads no more than once, and yields its contents twice |
| `Collect.PreorderReadable` | drive_module/drive_ops.py:248-254 | every descriptor of a walk holds the bar separator, so `fikle_attribute[1]` exists |
| `Collect.PreorderAllReadable` | drive_module/drive_ops.py:259-260 | every descriptor of the subfolder walks holds the bar separator |
| `Collect.MdFilesSnoc` | drive_module/drive_ops.py:248-249 | one more listed file adds it to the read files when it ends in `.md` |
| `Collect.ServeAllSnoc` | drive_module/drive_ops.py:251-257 | one more descriptor is one more cache call on the store left before |
| `Collect.PreorderAllSnoc` | drive_module/drive_ops.py:259-262 | one more subfolder adds its walk and its visited folders |
| `Collect.ServedAsAppend` | drive_module/drive_ops.py:259-262 | reading `a` and then `b` is reading `a + b` |
| `Collect.Walks` | drive_module/drive_ops.py:265 | every folder of the tree has its walk |
| `Collect.ServedAsStep` | drive_module/drive_ops.py:251-257 | one cache call, with its hit and miss behaviour, extends the reading by one descriptor |
| `Collect.ReadFiles` | drive_module/drive_ops.py:248-257 | the file loop reads the `.md` files in listing order through the cache; the contents, session and download log are those of `ServeAll` |
| `Collect.RecordedAsTrans` | drive_module/drive_ops.py:260 | the memo entries of two consecutive walks combine |
| `Collect.RecordedAsOwn` | drive_module/drive_ops.py:264-265 | the last two writes add the folder's own entries |
| `Collect.Collect` | drive_module/drive_ops.py:241-266 | `all_files` is the pre-order walk; contents, session and download log are those of serving the walk in order; every visited folder gets its walk in `folder_all_files`, a memo entry of the same length, and `memo[folder]` is `contents`; entries of other folders are unchanged; from an agreeing session, each content is the text of the file at the same index of `all_files`, and the session still agrees |
| `Collect.CollectFresh` | drive_module/drive_ops.py:241-266 | from empty dictionaries, the memo and `folder_all_files` hold exactly the visited folders; from an agreeing session, `contents[i]` is the text of `all_files[i]`'s file |
| `Collect.PreorderCovers` | drive_module/drive_ops.py:246-262 | a walk reads exactly the `.md` files of the folders it visits |
| `Collect.PreorderAllCovers` | drive_module/drive_ops.py:259-262 | the subfolder walks read exactly the `.md` files of the folders they visit |
| `DriveHtml.LargestCropFit` | Drive_HTML.py:56-78 | the box lies inside the image and spans it in at least one dimension; the centre range keeps half the box from each edge and is non-empty in both directions |
| `DriveHtml.OverWidthNeedsRatio` | Drive_HTML.py:67-70 | the full-width branch is taken only when `a > 0`, so it never divides by zero |
| `DriveHtml.CropBranch` | Drive_HTML.py:61-70 | full height with width `int(h*a/b)` when that fits, else full width with height `int(w*b/a)` |
| `DriveHtml.WidthCaseFits` | Drive_HTML.py:67-70 | when full height is too wide, the full-width box is lower than the image |
| `DriveHtml.CropRatio` | Drive_HTML.py:61-70 | the box has ratio `a:b` up to truncation; the truncated side is the largest with `side * b <= h * a` (resp. `side * a <= w * b`) |
| `DriveHtml.FirstMatching` | Drive_HTML.py:102-105 | the first pattern that matches: none before it matches, and it does match unless it is past the last |
| `DriveHtml.ExtractFileId` | Drive_HTML.py:93-106 | the capture of the first pattern that matches, in order, or `None` when none matches; a capture is non-empty and made of id characters |
| `DriveHtml.IdIsIdChars` | Drive_HTML.py:97-101 | a capture consists of id characters only |
| `DriveHtml.ThirdPatternRedundant` | Drive_HTML.py:97-101 | wherever `drive.google.com/open?id=` matches, `id=` matches too, so the third pattern never decides the result |

## Left out

- Google authentication (`auth.py`), the Drive service calls and Streamlit widgets are not modelled.
  - Listing a folder is replaced by a given sequence of entries.
  - A download is replaced by the content oracle of `Remote.Drive`, with a log of downloads.
- `history_description` is not modelled. It builds a new description from the old one, but sends `data_str` instead of that description (drive_ops.py:32-44), so the old description is lost.
- YAML parsing: `extract_yaml`'s regex and `yaml.safe_load` are abstracted as a function `frontMatter` from text to an optional value. `None` stands for "no block" or "parse error".
- Floats, dates and timestamps, sets, binary values and non-string mapping keys, all of which `yaml.safe_load` can produce, are not modelled in `Values.Value`. `deep_update` treats each of them as a scalar that the new value overwrites, just like `Int` or `Str`.
- Python equality in `x not in d[k]` is replaced by the datatype's equality. In Python `1 == True` and `1 == 1.0`; in the model `Int(1)` and `Bool(true)` differ.
- `DeepMerge.DeepUpdate` returns the updated mapping instead of mutating `d` in place. Objects that YAML anchors share between two keys are therefore not modelled, nor the mutation one key's update would cause at the other.
- Dictionary and set order are not modelled.
  - Mappings are `map`s, so key order is lost.
  - Which root candidate `list(root)[0]` picks is left open, with `:|`.
  - The `ROOT` node's subfolder order is the order of first insertion, as Python keeps it.
- `Cache.Session.GetOrCache` takes a Drive file id instead of an arbitrary `loader_func`. In the core, `collect` always passes a Drive download as the loader.
- `collect`'s `checkbox` parameter is unused by the code and is not modelled.
- Collect.Collect: the code writes `memo` but never reads it, so the memo does not avoid recomputing a subfolder's walk. The model follows the code.
- Collect.Collect: requires an acyclicity witness (the ghost `rank`). On a cyclic tree the code recurses until Python's `RecursionError`, which is not modelled.
- Collect.Collect: requires every `.md` descriptor to hold a `|`; without it the code raises `IndexError`. `Collect.BuiltTreeWellFormed` shows that trees from `build_tree` always meet this.
- Collect.Collect: the contents are stated to be the files' texts only when the session agrees with the Drive at the start (`Collect.Consistent`; an empty session always does). A session holding stale text under a current fingerprint would be served as it is. The Drive's texts are one fixed oracle for the whole run.
- Collect.Collect: the memo values are stated by their length and by `memo[folder] == contents`. Their contents for nested folders are those the nested calls produce, and are not restated.
- Four loops or loop bodies are separate methods, each proved against its specification function: the file loop of `collect` (`Collect.ReadFiles`), the two loops of `build_tree` (`Tree.FolderPass`, `Tree.AttachPass`), and the loop body of `deep_update` (`DeepMerge.UpdateKey`).
- DriveHtml.LargestCropFit: `int(x * a / b)` is float division truncated. It is modelled as exact floor division of natural numbers, so float rounding on very large sizes is not captured.
- DriveHtml.LargestCropFit: requires `b > 0`. With `b == 0` the code raises `ZeroDivisionError`.
- Whitespace and line breaks are modelled for ASCII characters only. Whitespace (`\s`, `strip`) is space, `\t \n \v \f \r` and `\x1c`-`\x1f`; the `splitlines` breaks are `\n \v \f \r`, `\r\n` and `\x1c`-`\x1e`. Unicode whitespace and the breaks `\x85`, `\u2028`, `\u2029` are not modelled, and `re.IGNORECASE` folds ASCII letters only.
- `select_working_folder`, `list_folder_contents`, `list_folder_contents_recursive`, `get_file_metadata` and `get_crop_center` are outside the modelled core. They are Drive calls, UI code or a one-line float computation.

## Findings

| source | as written | input that shows it | evidently intended | confidence | as-written member | corrected member |
|---|---|---|---|---|---|---|
| drive_module/drive_ops.py:88-100 | the greedy `\s*` after `NAME\s*:` also consumes the newline before the next `##` header, so the lazy group no longer sees `\n##\s` there and runs into the following section | `"##T:\n##\n-"` with section `T`: the empty `T` section returns the next section's bullet, `["-"]` | the text between `NAME:` and the next `\n##\s` header, as the comment at line 87 says, so an empty section returns `[]` (proved as `Sections.EmptySectionHasNoItems`; `Sections.SectionsWithTextAgree` shows both agree on sections with text) | not executed | `Sections.EmptySectionTakesNextSection` | `Sections.BulletItemsCorrected` |
