/**
 * A Gmail message payload as the two sync routes read it: a tree of MIME
 * parts. Only the fields the routes test are kept, and JavaScript's
 * truthiness tests on them are folded into the representation:
 *  - `mimeType` is "" when the field is absent (neither `=== 'text/plain'`
 *    nor `?.startsWith('multipart/')` can hold then);
 *  - `data` is the base64 text of `body.data`, "" when `body` is absent or
 *    its `data` is absent or empty (`body && body.data` is then falsy);
 *  - `parts` is [] when the field is absent (both routes treat an absent
 *    and an empty `parts` array alike).
 */
module Mime {

  datatype Part = Part(mimeType: string, data: string, parts: seq<Part>)
}
