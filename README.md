# ghost-publish, modelled in Dafny

This project models the core of the ghost-publish Obsidian plugin. The plugin
publishes the open Markdown note to a Ghost blog and moves screenshots between
vault folders. The model covers:

- **`publishPost`** (`src/methods/publishPost.ts`), step by step:
  - split the Admin API key into id and secret, and build the token claims;
  - build the post fields from the note's frontmatter;
  - rewrite every `[[wiki link]]` in the body (the global lazy replace
    `/\[\[(.*?)\]\]/g`) into a Markdown image or an HTML anchor;
  - wrap the rendered body in the `{ posts: [...] }` payload;
  - read the two images; each read can fail and end the publish;
  - build the multipart boundary from `Math.random()`;
  - frame the attachment's bytes in a UTF-8 `multipart/form-data` body, as
    section 5.1.1 of RFC 2046 lays it out;
  - hand the image upload request to the network.
- **The plugin class `GhostPublish`** (`src/main.ts`):
  - loading settings by merging the saved data over the defaults, and saving
    them;
  - the ribbon and command entry points that publish the open view or show a
    notice;
  - the "Move image under cursor" command: the greedy regex
    `/!\[\[(.+)\]\]/` on the cursor line, the lookup under
    `Private/Screenshots/`, and the rename into `Attachments/`.

Modules, one file each:

| file | module | contents |
|---|---|---|
| `wrappers.dfy` | `Wrappers` | `Option` and `Result` |
| `bytes.dfy` | `Bytes` | the `byte` type of file contents and encoded text |
| `text.dfy` | `Text` | JavaScript string operations: `includes`, `split` and its inverse `Join`, `slice`, the regex line terminators |
| `wiki_links.dfy` | `WikiLinks` | the `[[...]]` scanner and the link rewrite |
| `post_payload.dfy` | `PostPayload` | frontmatter to post fields, and the post payload |
| `admin_key.dfy` | `AdminKey` | key splitting and the token claims |
| `multipart.dfy` | `Multipart` | UTF-8 encoding, the random boundary, the upload body |
| `move_image.dfy` | `MoveImage` | the embed regex, the vault paths, `renameFile` on a vault map |
| `publish_post.dfy` | `Publish` | `publishPost` as a method with its error points |
| `plugin.dfy` | `Plugin` | the plugin class, its settings and its commands |

What this version of the code does, and does not do:

- it treats a link target as an image when it merely contains ".png"
  (case-sensitive), and writes Markdown image syntax for it;
- it looks no link up in the vault; every link points at `baseURL/<id>`;
- it uploads the fixed file `Attachments/ultra.png`, not the note's own images;
- it builds the post payload but only logs it, so the one request it sends
  is the image upload; it neither looks posts up by slug nor creates or
  updates them;
- it does not check excerpt length, build dated image URLs, handle audio,
  or rewrite callouts, footnotes or video links;
- the boundary prefix is spelled `djmangoBoundry`.

## Model

| member | source | states |
|---|---|---|
| Text.IncludesIff | src/methods/publishPost.ts:70 | `includes` holds exactly when the pattern occurs at some index |
| Text.Split | src/methods/publishPost.ts:74-75 | `split` on one character gives at least one part, no part contains the separator, and joining the parts with the separator gives the input back |
| Text.SplitJoin | src/methods/publishPost.ts:74-75 | splitting a join of separator-free parts gives those parts back (`split` and `join` are inverse) |
| Text.Slice | src/methods/publishPost.ts:146-148 | `slice(start, end)` clamps both ends to the length and keeps the characters between them |
| WikiLinks.CloseFrom | src/methods/publishPost.ts:68 | the lazy `(.*?)\]\]` search; its meaning is stated by `CloseFromIff` |
| WikiLinks.MatchAt | src/methods/publishPost.ts:68 | one attempt of the pattern at the scan position; its shape is stated by `MatchAtShape` and `LinkMatch` |
| WikiLinks.Scan | src/methods/publishPost.ts:67-69 | the global left-to-right match loop of `replace`; stated by `ScanSource`, `ScanWellScanned` and `ScanUnique` |
| WikiLinks.Replacement | src/methods/publishPost.ts:69-80 | the callback's result for one capture; stated by `PngBecomesImage` and `AnchorFromParts` |
| WikiLinks.RewriteLinks | src/methods/publishPost.ts:67-82 | `data.content.replace(...)`; stated by `RewriteWithoutLinks`, `LinkThenRest`, `CharThenRest` and, through `Scan`, `ScanSource`/`ScanUnique` |
| WikiLinks.CloseFromIff | src/methods/publishPost.ts:68 | the lazy search returns `c` exactly when `c` is the earliest closing "]]" with no line terminator before it |
| WikiLinks.MatchAtShape | src/methods/publishPost.ts:68 | a match consists of "[[", a capture without line terminators or an inner "]]", and "]]" |
| WikiLinks.LinkMatch | src/methods/publishPost.ts:68 | "[[inner]]rest" matches exactly through the "]]" after `inner`, whatever `rest` is |
| WikiLinks.ScanSource | src/methods/publishPost.ts:67-69 | the global scan loses nothing: its pieces spell the input back |
| WikiLinks.ScanWellScanned | src/methods/publishPost.ts:67-69 | the scan yields only well-formed pieces: literal characters never start a match, and each link capture is exactly a lazy match |
| WikiLinks.ScanUnique | src/methods/publishPost.ts:67-69 | well-formed pieces are the scan of the text they spell, so a scan is determined by the text |
| WikiLinks.ParseLink | src/methods/publishPost.ts:74-77 | `p1.split("\|")` then `link.split("#")`: the id contains no '\|' or '#' and is a prefix of the capture, and the link text contains no '\|' |
| WikiLinks.RewriteWithoutLinks | src/methods/publishPost.ts:67-82 | a body with no "[[" is left unchanged by the rewrite |
| WikiLinks.LinkThenRest | src/methods/publishPost.ts:67-81 | a link followed by other text is replaced, and the rest is rewritten on its own (the replacement is never rescanned) |
| WikiLinks.CharThenRest | src/methods/publishPost.ts:67-69 | a character that does not start a match is copied as is |
| WikiLinks.PngBecomesImage | src/methods/publishPost.ts:70-72 | a capture containing ".png" becomes `![p1](BASE_URL/p1)` |
| WikiLinks.AnchorFromParts | src/methods/publishPost.ts:74-79 | a capture without ".png" becomes `<a href="BASE_URL/id">text</a>`, with the id and the text computed from its '\|' and '#' parts |
| WikiLinks.ImageEmbedKeepsBang | src/methods/publishPost.ts:67-72 | an embed "![[x.png]]" keeps its '!' and becomes "!![x.png](BASE_URL/x.png)" |
| WikiLinks.EmptyLink | src/methods/publishPost.ts:74-79 | "[[]]" becomes an anchor to "BASE_URL/" with empty text |
| PostPayload.OrElse | src/methods/publishPost.ts:55 | `a \|\| b` on an optional string: `b` when `a` is missing or empty, else `a` |
| PostPayload.NonEmpty | src/methods/publishPost.ts:60-61 | `a \|\| undefined`: an empty string becomes undefined |
| PostPayload.BuildFields | src/methods/publishPost.ts:54-62 | title and slug are the frontmatter value `\|\|` the base name, excerpt and feature image the value `\|\| undefined`; tags default to [], featured to false; status is "published" exactly when `published` is true |
| PostPayload.NoFrontmatterDefaults | src/methods/publishPost.ts:54-62 | a note without frontmatter becomes a draft titled and slugged by its base name, with no tags |
| PostPayload.PresentFieldsKept | src/methods/publishPost.ts:54-62 | field by field, whatever else is present: a non-empty title, slug, excerpt or feature image is kept, and an absent or empty one falls back to its default; present tags and featured are kept |
| PostPayload.FieldsAsFrontmatterRoundTrip | src/methods/publishPost.ts:54-62 | post fields written back as frontmatter rebuild the same fields |
| PostPayload.ContentPost | src/methods/publishPost.ts:24-31 | the payload holds exactly one post: the fields plus `html`, the rendering of the rewritten body |
| AdminKey.SplitKey | src/methods/publishPost.ts:38-39 | id and secret are found exactly when the key contains ':'; the id is the part before the first ':' and the secret is the second segment |
| AdminKey.SplitKeyOfParts | src/methods/publishPost.ts:38-39 | a key "id:secret[:...]" built from colon-free parts splits back into that id and secret |
| AdminKey.TokenClaims | src/methods/publishPost.ts:42-47 | the token is signed with HS256, the key id, a five-minute expiry and audience "/v4/admin/" |
| AdminKey.ClaimsForKey | src/methods/publishPost.ts:38-47 | claims exist exactly when the key has a secret, and their key id is the key's prefix before ':' |
| Multipart.EncodeChar | src/methods/publishPost.ts:155 | `TextEncoder` writes 1 to 4 bytes per character, one byte exactly for ASCII characters, and that byte is the character's code |
| Multipart.Encode | src/methods/publishPost.ts:155-159 | `TextEncoder.encode`, the characters' encodings one after another; stated by `EncodeLength`, `EncodeAppend` and `EncodeAscii` |
| Multipart.EncodeLength | src/methods/publishPost.ts:155-159 | the encoding takes one to four bytes per character |
| Multipart.EncodeAppend | src/methods/publishPost.ts:155-164 | encoding a concatenation concatenates the encodings |
| Multipart.EncodeAscii | src/methods/publishPost.ts:155 | ASCII text encodes to one byte per character, each byte being the character's code |
| Multipart.RepeatPeriodic | src/methods/publishPost.ts:144-148 | the repeated string has the piece's length as its period |
| Multipart.RandomPiece | src/methods/publishPost.ts:146 | `(r + 17 zeros).slice(2, 18)` is the characters of the zero-padded `r` from index 2 on: 16 of them (15 only for an empty `r`) |
| Multipart.RepeatedPrefix | src/methods/publishPost.ts:144-148 | the 16-character suffix starts with the random piece and repeats it with the piece's period |
| Multipart.BoundaryShape | src/methods/publishPost.ts:141-148 | the boundary is "djmangoBoundry" followed by exactly 16 characters, which for a non-empty random text are exactly the random piece |
| Multipart.RandomSuffix | src/methods/publishPost.ts:144-148 | the joined and sliced random part is exactly 16 characters; `RepeatedPrefix` states which |
| Multipart.Boundary | src/methods/publishPost.ts:141-148 | `randomBoundryString` is "djmangoBoundry" followed by 16 characters |
| Multipart.PreString | src/methods/publishPost.ts:151 | `pre_string`; `DelimitersMatchParameter` states that it opens with the delimiter of the content type's boundary |
| Multipart.PostString | src/methods/publishPost.ts:152 | `post_string`; `DelimitersMatchParameter` states that it is the close delimiter of that boundary |
| Multipart.ContentType | src/methods/publishPost.ts:172 | the `contentType` option; `BoundaryParameterValid` states that its boundary parameter is legal |
| Multipart.UploadBody | src/methods/publishPost.ts:155-164 | the concatenated `ArrayBuffer`; stated by `FileEmbedded` and `DelimitersMatchParameter` |
| Multipart.FileEmbedded | src/methods/publishPost.ts:155-164 | the body is the encoded preamble, the file's bytes unchanged, then the encoded closing delimiter |
| Multipart.DelimitersMatchParameter | src/methods/publishPost.ts:151-172 | the opening and closing delimiters in the body are "--" plus the boundary parameter of the content type, with "--" after the closing one |
| Multipart.BoundaryParameterValid | src/methods/publishPost.ts:141-172 | for a base-36 random text, the boundary parameter is 1 to 70 characters from section 5.1.1 of RFC 2046's `bchars`, not ending in a space |
| Multipart.DelimitersAreAscii | src/methods/publishPost.ts:151-152 | for a base-36 random text, the delimiter lines are ASCII, so they encode byte for byte |
| MoveImage.RunEnd | src/main.ts:54 | `.` stops at the first line terminator: the run from `i` ends there or at the end of the line |
| MoveImage.LastCloseSpec | src/main.ts:54 | the greedy `(.+)\]\]` takes the last "]]" of the run that leaves at least one character for the capture |
| MoveImage.LastClose | src/main.ts:54 | the greedy backtracking of `(.+)\]\]`; stated by `LastCloseSpec` |
| MoveImage.EmbedAt | src/main.ts:54 | one attempt of the pattern at a position; stated through `FindEmbedSound` and `FindEmbedComplete` |
| MoveImage.FindEmbed | src/main.ts:54 | `exec` trying each start in turn: a match found lies within the line; `FindEmbedSound`, `FindEmbedComplete` and `NoEmbedSpec` state which |
| MoveImage.EmbedName | src/main.ts:54-63 | `match[1]`; stated by `EmbedNameSpec`, `NoEmbedSpec` and `EmbedNameFramed` |
| MoveImage.FindEmbedSound | src/main.ts:54 | on a single line, what the search finds is the first "![[" and the last "]]" at least one character after it |
| MoveImage.FindEmbedComplete | src/main.ts:54 | on a single line, when `p` is the first "![[" from the scan start and `k` the last "]]" at least one character after it, the search returns exactly that match |
| MoveImage.EmbedNameSpec | src/main.ts:54-63 | on a single line, `match[1]` is `name` exactly when "![[" + name + "]]" is the leftmost-greedy match |
| MoveImage.NoEmbedSpec | src/main.ts:54-61 | on a single line, no match is found exactly when no "![[" has a "]]" at least one character after it |
| MoveImage.EmbedNameFramed | src/main.ts:54-63 | a found name is non-empty and appears in the line between "![[" and "]]" |
| MoveImage.BaseName | src/main.ts:83 | `TFile.name` is the last path segment: it has no '/', and the path ends with it |
| MoveImage.SourcePath | src/main.ts:67 | `Private/Screenshots/${fileName}`; `PlannedMove` and `MoveChangesPath` state its use |
| MoveImage.TargetPath | src/main.ts:79-83 | `Attachments/` + the last segment of a path; `PlannedTarget` ties it to the planned move |
| MoveImage.RenameFile | src/main.ts:81-84 | a rename moves the file to the new path under its new name and leaves every other path alone; an existing destination leaves the vault unchanged |
| MoveImage.RenameKeepsNames | src/main.ts:81-84 | a rename keeps every file's name equal to the last segment of its path |
| MoveImage.PlannedMove | src/main.ts:54-84 | a move is planned exactly when the line has an embed and "Private/Screenshots/<name>" exists; it goes to "Attachments/" + that file's name |
| MoveImage.PlannedTarget | src/main.ts:79-83 | in a vault whose files are named after their paths, the target is "Attachments/" + the last segment of the source path |
| MoveImage.MoveChangesPath | src/main.ts:67-83 | the source and target paths of every planned move differ |
| Publish.Setting | src/methods/publishPost.ts:64 | a setting interpolated into a template reads as its value, or "undefined" when missing |
| Publish.Upload | src/methods/publishPost.ts:169-179 | the upload is a POST to `<url>/ghost/api/admin/images/upload/` with the boundary's content type, the framed body and "Accept-Version: v4" |
| Publish.PublishPost | src/methods/publishPost.ts:33-190 | each of the four throws happens exactly under its condition, in source order; otherwise it returns the key's claims, the payload of the rewritten body and the upload of the attachment |
| Plugin.MergeSettings | src/main.ts:100-106 | loaded keys override the defaults, the other defaults stay, and no other key appears |
| Plugin.SaveThenLoad | src/main.ts:100-109 | loading what was just saved gives the same settings |
| Plugin.Attachment | src/methods/publishPost.ts:157 | `readBinary` succeeds exactly when the vault holds "Attachments/ultra.png", and then gives that file's bytes |
| Plugin.GhostPublish.LoadSettings | src/main.ts:100-106 | `settings` becomes the saved data merged over the defaults; nothing else changes |
| Plugin.GhostPublish.SaveSettings | src/main.ts:107-109 | the saved data becomes exactly the current settings; nothing else changes |
| Plugin.GhostPublish.PublishView | src/main.ts:15-41 | with no view, one notice and no upload; otherwise exactly one upload when `publishPost` gets through every step, else none |
| Plugin.GhostPublish.Send | src/methods/publishPost.ts:183 | the request is appended to the uploads sent |
| Plugin.GhostPublish.MoveImageUnderCursor | src/main.ts:46-92 | with no view, a notice; otherwise the vault changes exactly by the planned rename, and files stay named after their paths |

## Left out

- The JWT signing and the hex decoding of the secret: the token is represented by its claims (`UploadRequest.claims` stands for the `Authorization: Ghost <token>` header).
- gray-matter and markdown-it: the note's cached frontmatter and body are inputs (`NoteView`), and the renderer is a function parameter.
- Frontmatter values are typed (`Option<string>`, `Option<bool>`, and so on); YAML values of other types, which `||` and the spread would carry through unchanged, are not modelled.
- Host APIs (workspace, metadata cache, editor, notices, console output, setting tab, ribbon and command registration) are reduced to what the plugin reads and changes. The case where `getFileCache` returns null and its property access throws is not modelled.
- `readFileSync` and `readBinary` are modelled by their outcome (`Option` bytes). The `Blob`/`File`/`FormData` objects built from the local image, and the `getFirstLinkpathDest` lookup, are only logged, so they are not modelled.
- `Math.random()` is the parameter `randomText`, the text of `toString(36)`.
- The response of `requestUrl` and its error handler: only the request that is sent is modelled, since the promise is never awaited.
- Commented-out code (the H1 removal and the slug lookup) is not modelled.
- `src/types/index.ts` and `src/settingTab.ts` are not part of this model: `DEFAULT_SETTINGS` is a constructor parameter, and settings are string-valued.
- Publish.PublishPost: only the four throws listed in `PublishError` are modelled. A malformed YAML frontmatter that makes `matter` throw (after the token is signed, before the rewrite) and a failure inside `sign` are not; the model returns `Ok` there.
- Plugin.GhostPublish.PublishView: one method stands for both the ribbon callback and the "publish" command callback, which behave alike.
- Plugin.GhostPublish.MoveImageUnderCursor: `renameFile` is not awaited. A destination that already exists is modelled as a rename that changes nothing, and the link updates it makes in other notes are not modelled.
- MoveImage.EmbedNameSpec: its characterisation is stated only for cursor lines without line terminators (`getLine` returns one line); `EmbedName` itself follows the regex on any input.
- Multipart.DelimitersAreAscii: proved for the delimiter lines only, not for the constant part headers between them.
- Nothing checks that the boundary does not occur inside the file's bytes. The source does not check this either.
- `Content-Type` is set both in `headers` (without a boundary) and as `contentType` (with one). Which one `requestUrl` sends is host behaviour and is not modelled; both values are kept.
- Strings are sequences of Unicode scalar values, not UTF-16 code units, so lone surrogates are not modelled.
