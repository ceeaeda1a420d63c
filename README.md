# jsc3d software renderer core in Dafny

This project models the core of jsc3d, a JavaScript 3D viewer that draws
triangle meshes onto an HTML canvas entirely in software. The model covers
the following parts:

- **Index streams.** A face is a run of vertex indices ended by the sentinel -1.
- **Mesh preparation.** Counting faces, the bounding box, un-normalised face normals and their accumulation into vertex normals.
- **The scene.** Children, ids, the union box, and the render list sorted opaque-first and by depth.
- **The shading palette.** A material's 256-entry colour ramp.
- **Textures.** Packing canvas bytes into ARGB texels, the 2x2 box-filtered mip chain, mip level selection and the wrapped texel lookup.
- **The rasterizer's integer logic.** Corner classification, span set-up, depth-tested writes into the depth, colour and selection buffers, blending and modulation on packed colours, and the 2x2 point footprint.
- **The viewer's frame buffers.** Working-frame size per quality level, the background gradient, the per-frame clear, presenting at low, standard and high quality, and picking.
- **The affine 3x4 matrix** and the batch vector transforms.
- **The loaders.**
  - Choosing a loader from a URL.
  - The binary STL reader, with little-endian integers and IEEE 754 binary32 numbers.
  - The OBJ line parser.
  - The per-mesh index compaction.

The modules follow the library's structure:

| module | file | models |
|---|---|---|
| `Geometry` | geometry.dfy | `JSC3D.AABB`, vectors, cross product |
| `Sequences` | sequences.dfy | `lastIndexOf` |
| `Bits` | bits.dfy | `&`, `\|`, `<<`, `>>` on non-negative integers, 32-bit wrap |
| `Packed` | packed.dfy | packed 0xRRGGBB colours and 0xAARRGGBB texels |
| `LittleEndian` | binary32.dfy | `readUInt32LittleEndian`, `readFloatLittleEndian` |
| `IndexStream` | index_stream.dfy | sentinel-terminated face walks, culling, fan triangulation |
| `Meshes` | mesh.dfy | `JSC3D.Mesh` and its `calc*` steps |
| `Scenes` | scene.dfy | `JSC3D.Scene`, the viewer's `sortScene` |
| `Palette` | palette.dfy | `JSC3D.Material` |
| `Textures` | texture.dfy | `JSC3D.Texture`, mip selection, texel lookup |
| `Matrices` | matrix.dfy | `JSC3D.Matrix3x4` |
| `Math3D` | math3d.dfy | `JSC3D.Math3D.transformVectors`, `transformVectorZs` |
| `Raster` | raster.dfy | the integer core of the `render*` methods |
| `Viewers` | viewer.dfy | `JSC3D.Viewer` frame buffers, background, presentation, picking |
| `LoaderSelection` | loader_selection.dfy | `JSC3D.LoaderSelector`, `loadScene`'s URL split |
| `StlLoader` | stl.dfy | the binary half of `JSC3D.StlLoader.parseStl` |
| `ObjText` | obj_text.dfy | `split`, `parseInt` and `String(n)` as the OBJ parser uses them |
| `ObjLoader` | obj.dfy | `JSC3D.ObjLoader.parseObj` |
| `ObjCompaction` | obj_compact.dfy | the per-mesh compaction at the end of `parseObj` |
| `Wrappers` | wrappers.dfy | an `Option` type |

Numbers are modelled as follows:

- Coordinates, depths and normals are real numbers; floating-point rounding is not modelled.
- Colours, texels and bytes are bounded integers.
- The bit operators are defined arithmetically, with 32-bit wrap-around where the source relies on it.
- Objects the source updates in place are classes: `Mesh`, `Scene`, `Material`, `Texture`, `Matrix3x4`, `Viewer`, the loader table and the OBJ parser state.
- Frame buffers, texel lists and index streams that loops fill in place are arrays or sequence fields.

Behaviours of the code that are easy to misread; the model follows the code:

- **Trivial meshes.** A mesh is trivial when its vertex buffer has fewer than three *entries* (not three vertices) or its index buffer has fewer than three entries. This is the test at `trunk/jsc3d/jsc3d.js:2921-2924`, and `Meshes.Mesh.IsTrivial` states it.
- **Translucent spans.** A translucent span stops one column short of its right end (`x < xRight` rather than `x <= xRight`). `Raster.SpanCells` and `Raster.FillSpan` keep this.
- **The lit translucent texel.** It writes depth only when its combined opacity exceeds 250, as `Raster.ShadeDepth` states.
- **The 'constructor' extension.** The doc comment of `getLoader` (`trunk/jsc3d/jsc3d.js:3668-3672`) promises null for an unregistered extension. The table is a plain object, though, so 'constructor' (in any case) finds the inherited `Object` and yields a plain object, and `loadScene` then throws at `loadFromUrl` instead of returning false. `LoaderSelection.LoaderTable.LoadScene` and `LoaderSelection.ConstructorUrlThrows` state this.
- **Picking without a scene.** `pick` has no scene check, and the mouse handlers call it while no scene is loaded. A cell that still holds a mesh id from an earlier frame then makes it throw; `Viewers.Viewer.Pick` returns this as the `NoScene` outcome.

## Model

All sources are in `trunk/jsc3d/jsc3d.js`.

| member | source | states |
|---|---|---|
| Geometry.Cross | trunk/jsc3d/jsc3d.js:3031-3040 | the face normal formed from two edges is perpendicular to both edges |
| Geometry.AABB.Center | trunk/jsc3d/jsc3d.js:3455-3457 | the centre lies halfway between the bounds on every axis, and inside the box when the box is not inverted |
| Geometry.Include | trunk/jsc3d/jsc3d.js:2984-2995 | one scan step leaves the coordinate inside the axis bounds, only widens them, moves each bound to the old bound or the coordinate, and leaves the other axes alone |
| Geometry.Union | trunk/jsc3d/jsc3d.js:2830-2841 | each bound of the union is the outer of the two boxes' bounds, and is attained by one of them |
| Sequences.LastIndexOf | trunk/jsc3d/jsc3d.js:568-570 | the result is -1 or a position holding the element, and no later position holds it |
| Sequences.LastIndexOfFinds | trunk/jsc3d/jsc3d.js:568-574 | lastIndexOf finds a position exactly when the element occurs |
| Packed.RgbChannels | trunk/jsc3d/jsc3d.js:720 | reading red, green and blue back from a packed colour gives the channels packed |
| Packed.OrChannels | trunk/jsc3d/jsc3d.js:720 | `r << 16 \| g << 8 \| b` equals the packed colour: the ORed fields do not overlap |
| Packed.ArgbChannels | trunk/jsc3d/jsc3d.js:3353 | reading alpha, red, green and blue back from a packed texel gives the channels packed |
| Packed.RgbOfChannels | trunk/jsc3d/jsc3d.js:720 | every colour is the packing of its own channels (the converse round trip) |
| Packed.ArgbOfChannels | trunk/jsc3d/jsc3d.js:3353 | every texel word is the packing of its own four channels |
| Packed.MasksSelectChannels | trunk/jsc3d/jsc3d.js:1253-1256 | the masks 0xff0000, 0xff00, 0xff and 0xff000000 select exactly one channel each, left in place |
| LittleEndian.DecodeEncode | trunk/jsc3d/jsc3d.js:4325-4333 | the k little-endian bytes of a number below 256^k read back as that number |
| LittleEndian.EncodeDecode | trunk/jsc3d/jsc3d.js:4325-4333 | encoding the number some bytes stand for gives those bytes back |
| LittleEndian.UIntBound | trunk/jsc3d/jsc3d.js:4325-4333 | k bytes stand for a number below 256^k |
| LittleEndian.ReadUInt32 | trunk/jsc3d/jsc3d.js:4325-4333 | the factor loop returns the little-endian value of the four bytes, which is below 2^32 |
| LittleEndian.WordFields | trunk/jsc3d/jsc3d.js:4346-4365 | the sign, biased exponent and trailing significand the reader gathers from the bytes are the binary32 fields of the word |
| LittleEndian.ReadFloat | trunk/jsc3d/jsc3d.js:4338-4380 | the result is the IEEE 754 binary32 value of the four little-endian bytes |
| LittleEndian.Assemble | trunk/jsc3d/jsc3d.js:4367-4379 | the closing switch (zero, all-ones and normal exponents) yields the binary32 value of the word |
| LittleEndian.SignSymmetry | trunk/jsc3d/jsc3d.js:4367-4379 | setting the sign bit negates the decoded value |
| LittleEndian.PositiveOrder | trunk/jsc3d/jsc3d.js:4367-4379 | positive finite words decode to strictly increasing values, in bit-pattern order |
| LittleEndian.NextUp | trunk/jsc3d/jsc3d.js:4367-4379 | the next positive finite word decodes to the next larger value |
| LittleEndian.PastFinite | trunk/jsc3d/jsc3d.js:4371-4372 | 0x7f800000 decodes to +infinity and the words above it, up to the sign bit, to NaN |
| IndexStream.FaceEnd | trunk/jsc3d/jsc3d.js:1155-1156 | the face through a position ends at a sentinel at or after it |
| IndexStream.FaceEndFirst | trunk/jsc3d/jsc3d.js:1155-1156 | no sentinel lies strictly inside a face |
| IndexStream.FaceSplit | trunk/jsc3d/jsc3d.js:1155-1156 | stepping over a face and its sentinel completes exactly one face |
| IndexStream.FaceNumberBound | trunk/jsc3d/jsc3d.js:3072-3082 | every index inside a face belongs to a face whose number is below the face count |
| IndexStream.SkipFace | trunk/jsc3d/jsc3d.js:1155-1156 | skipping a culled face stops just past the first sentinel, with no sentinel skipped before it |
| IndexStream.Culled | trunk/jsc3d/jsc3d.js:1151-1154 | a face is culled exactly when its normal's view z is negative and the mesh is not double-sided |
| IndexStream.FanFrom | trunk/jsc3d/jsc3d.js:1161-1166 | a face of n indices fans into n - 2 triangles |
| IndexStream.FanTriangles | trunk/jsc3d/jsc3d.js:1150-1285 | the face walk emits exactly the fans of the faces not culled, in stream order |
| IndexStream.FaceTriangles | trunk/jsc3d/jsc3d.js:1154-1284 | one face yields nothing when culled and its fan otherwise, and the walk resumes after its sentinel |
| IndexStream.FanFace | trunk/jsc3d/jsc3d.js:1161-1283 | the triangle loop over one face emits its fan from the first vertex and resumes after its sentinel |
| Meshes.Closed | trunk/jsc3d/jsc3d.js:2960-2962 | the closed stream is terminated, extends the original by at most the sentinel, and is the original when already terminated |
| Meshes.CountFaces | trunk/jsc3d/jsc3d.js:2964-2967 | the counting loop returns the number of sentinels |
| Meshes.ClosedCount | trunk/jsc3d/jsc3d.js:2957-2968 | closing adds one face exactly when the stream was not terminated |
| Meshes.Visits | trunk/jsc3d/jsc3d.js:2979 | the scan visits one vertex per started triple of coordinates |
| Meshes.ScanBounds | trunk/jsc3d/jsc3d.js:2979-2996 | the bounding-box loop computes the scan of every visited vertex from the inverted box |
| Meshes.TakeInWidens | trunk/jsc3d/jsc3d.js:2984-2995 | taking in a vertex only widens the box |
| Meshes.TakeInAttained | trunk/jsc3d/jsc3d.js:2984-2995 | after one step each bound is the old bound or the coordinate just read on that axis |
| Meshes.ScanContains | trunk/jsc3d/jsc3d.js:2974-3004 | every coordinate scanned lies within the bounds of its axis |
| Meshes.ScanAttained | trunk/jsc3d/jsc3d.js:2974-3004 | every bound is the initial +/-MAX_VALUE or a coordinate of its axis |
| Meshes.FaceNormalOrthogonal | trunk/jsc3d/jsc3d.js:3016-3040 | a face normal is perpendicular to the face's first two edges |
| Meshes.PerFaceLength | trunk/jsc3d/jsc3d.js:3042-3044 | a face-by-face buffer holds three values per remaining face |
| Meshes.FaceNormalsLength | trunk/jsc3d/jsc3d.js:3010-3049 | the face normal buffer holds three values per face |
| Meshes.NextFace | trunk/jsc3d/jsc3d.js:3015-3047 | a well-formed face has at least three indices, skipping from its fourth entry finds the same sentinel, and the next face follows it |
| Meshes.ComputeFaceNormals | trunk/jsc3d/jsc3d.js:3010-3049 | the face normal loop stores, face by face, the cross product of each face's first two edges |
| Meshes.WalkFaces | trunk/jsc3d/jsc3d.js:3015-3048 | the face loop appends one vector per face, in stream order |
| Meshes.AppendFaceVector | trunk/jsc3d/jsc3d.js:3016-3047 | one loop turn appends the face's vector and resumes just past its sentinel |
| Meshes.UnreferencedSum | trunk/jsc3d/jsc3d.js:3065-3083 | a vertex no face refers to accumulates the zero normal |
| Meshes.AccumulateVertexNormals | trunk/jsc3d/jsc3d.js:3061-3083 | each vertex normal component is the sum of that component of the normals of every face occurrence of the vertex |
| Meshes.AddFaceNormal | trunk/jsc3d/jsc3d.js:3078-3081 | one occurrence adds the current face's normal to its vertex and keeps the running sums |
| Meshes.Mesh.constructor | trunk/jsc3d/jsc3d.js:2860-2881 | a new mesh has no buffers, texture, material or box, zero faces and id 0, and is single-sided |
| Meshes.Mesh.IsTrivial | trunk/jsc3d/jsc3d.js:2921-2924 | a mesh is not trivial exactly when both its vertex and index buffers exist and hold at least three entries |
| Meshes.Mesh.HasTexture | trunk/jsc3d/jsc3d.js:2946-2951 | texture mapping needs texture data, a texture-index stream at least as long as the index stream, and texture coordinates |
| Meshes.Mesh.CalcFaceCount | trunk/jsc3d/jsc3d.js:2957-2968 | the index stream is closed with a sentinel if needed, the face count is its sentinel count, and no other field (name included) changes |
| Meshes.Mesh.CalcAABB | trunk/jsc3d/jsc3d.js:2974-3004 | the stored box is the scan of the vertex buffer, and no other field (name included) changes |
| Meshes.Mesh.CalcFaceNormals | trunk/jsc3d/jsc3d.js:3010-3049 | the stored buffer holds every face's un-normalised normal, three values per face, and no other field (name included) changes |
| Meshes.Mesh.CalcVertexNormals | trunk/jsc3d/jsc3d.js:3055-3083 | existing face normals are kept (missing ones are computed), each vertex normal is the sum of the face normals of its occurrences, and the other fields (name included) are kept |
| Scenes.RemoveFirst | trunk/jsc3d/jsc3d.js:2797-2804 | removal leaves the list unchanged when the mesh is absent and otherwise takes out exactly one occurrence |
| Scenes.RemoveFirstAt | trunk/jsc3d/jsc3d.js:2798-2803 | removal splices out the first index holding the mesh |
| Scenes.IdsIncreasingWithout | trunk/jsc3d/jsc3d.js:2797-2804 | ids stay strictly increasing when a child is taken out |
| Scenes.IdsDistinct | trunk/jsc3d/jsc3d.js:2788-2791 | two children share an id exactly when they are the same position |
| Scenes.SceneBoxContains | trunk/jsc3d/jsc3d.js:2818-2844 | the scene box contains the box of every non-trivial child |
| Scenes.SceneBoxAttained | trunk/jsc3d/jsc3d.js:2818-2844 | each scene bound is a bound of some non-trivial child, or the box stays inverted when every child is trivial |
| Scenes.InvertedUnion | trunk/jsc3d/jsc3d.js:2819-2841 | a union with the initial inverted box takes the other box's bounds |
| Scenes.Scene.constructor | trunk/jsc3d/jsc3d.js:2753-2758 | a new scene is empty, has no box, and hands out ids from 1 |
| Scenes.Scene.IsEmpty | trunk/jsc3d/jsc3d.js:2780-2782 | a scene is empty exactly when it has no children |
| Scenes.Scene.AddChild | trunk/jsc3d/jsc3d.js:2788-2791 | the mesh is appended with the next id, the id counter advances, and ids stay increasing |
| Scenes.Scene.RemoveChild | trunk/jsc3d/jsc3d.js:2797-2804 | the first occurrence of the mesh is removed, and ids stay increasing |
| Scenes.Scene.CalcAABB | trunk/jsc3d/jsc3d.js:2818-2844 | the stored box is the union of the boxes of the non-trivial children |
| Scenes.Renderable | trunk/jsc3d/jsc3d.js:896-909 | the render candidates are non-trivial children of the scene |
| Scenes.RenderableHas | trunk/jsc3d/jsc3d.js:897-900 | every non-trivial child is a render candidate |
| Scenes.CompareMeaning | trunk/jsc3d/jsc3d.js:911-927 | opaque sorts before transparent, opaque meshes by decreasing depth, transparent ones by increasing depth; ties are exactly equal keys |
| Scenes.CompareAntisymmetric | trunk/jsc3d/jsc3d.js:911-927 | swapping the arguments negates the comparator |
| Scenes.CompareTransitive | trunk/jsc3d/jsc3d.js:911-927 | the comparator's "not after" is transitive |
| Scenes.Insert | trunk/jsc3d/jsc3d.js:911-927 | insertion adds exactly the entry |
| Scenes.InsertMeshes | trunk/jsc3d/jsc3d.js:911-927 | insertion adds exactly the entry's mesh to the list's meshes |
| Scenes.InsertSorted | trunk/jsc3d/jsc3d.js:911-927 | inserting into a sorted list keeps it sorted |
| Scenes.SortEntries | trunk/jsc3d/jsc3d.js:911-927 | sorting permutes the entries |
| Scenes.SortEntriesMeshes | trunk/jsc3d/jsc3d.js:911-927 | sorting keeps every mesh as often as before |
| Scenes.SortEntriesSorted | trunk/jsc3d/jsc3d.js:911-927 | the sorted list is ordered by the comparator |
| Scenes.SortScene | trunk/jsc3d/jsc3d.js:893-930 | the render list is sorted, holds each non-trivial mesh exactly as often as the scene, and keys each by its view depth and transparency |
| Scenes.CollectEntries | trunk/jsc3d/jsc3d.js:896-909 | the gathering loop keeps the non-trivial meshes in scene order, each with its key |
| Palette.LevelMonotone | trunk/jsc3d/jsc3d.js:3190-3235 | each channel level does not decrease along the palette, with or without the specular segment |
| Palette.Ramp | trunk/jsc3d/jsc3d.js:3182-3236 | the palette has 256 entries, entry i being the channel levels of i |
| Palette.RampProperties | trunk/jsc3d/jsc3d.js:3182-3236 | channels never exceed 255 and never decrease along the palette, and entry 0 is the ambient colour |
| Palette.Material.constructor | trunk/jsc3d/jsc3d.js:3157-3164 | the default material is black ambient, 0x7f7f7f diffuse, opaque, without specular and without a palette |
| Palette.Material.GeneratePalette | trunk/jsc3d/jsc3d.js:3182-3236 | the filled palette is the ramp of the material's colours |
| Palette.Material.GetPalette | trunk/jsc3d/jsc3d.js:3170-3177 | an existing palette is returned unchanged; a missing one is generated once as the ramp |
| Textures.ChooseDimension | trunk/jsc3d/jsc3d.js:3318-3328 | the texture side is 32 to 512, holds the image's larger side up to 512, and is the smallest such side |
| Textures.DimensionIsPower | trunk/jsc3d/jsc3d.js:3318-3328 | every chosen side is a power of two, 2^5 to 2^9 |
| Textures.DimensionLog | trunk/jsc3d/jsc3d.js:3318-3328 | every chosen side has its base-2 exponent, between 5 and 9 |
| Textures.PackTexels | trunk/jsc3d/jsc3d.js:3348-3356 | texel i packs bytes 4i..4i+3 as ARGB, and translucency is flagged exactly when some alpha byte is below 255 |
| Textures.Downsampled | trunk/jsc3d/jsc3d.js:3392-3412 | the next mip level has dim x dim texels |
| Textures.Downsample | trunk/jsc3d/jsc3d.js:3396-3412 | the filter loop computes exactly the box-filtered next level |
| Textures.Mean4Channels | trunk/jsc3d/jsc3d.js:3403-3407 | each channel of a filtered texel is the floored mean of that channel of its four parents |
| Textures.MaskedMeanIsMean | trunk/jsc3d/jsc3d.js:3403-3407 | the masked and shifted formula the generator writes computes exactly that box filter |
| Textures.AlphaQuarter | trunk/jsc3d/jsc3d.js:3403 | the masked alpha term is the floored mean of the alphas, in place |
| Textures.RedQuarter | trunk/jsc3d/jsc3d.js:3404 | the masked red term is the floored mean of the reds, in place |
| Textures.GreenQuarter | trunk/jsc3d/jsc3d.js:3405 | the masked green term is the floored mean of the greens, in place |
| Textures.BlueQuarter | trunk/jsc3d/jsc3d.js:3406 | the masked blue term is the floored mean of the blues |
| Textures.MipLevel | trunk/jsc3d/jsc3d.js:3391-3417 | level L of a 2^k texture has (2^(k-L))^2 texels |
| Textures.MipLevelNext | trunk/jsc3d/jsc3d.js:3391-3416 | each level is the box-filtered previous level, whose side is twice as long |
| Textures.BuildMipChain | trunk/jsc3d/jsc3d.js:3386-3417 | the generator loop builds the k + 1 levels of the chain and the entries 4^L |
| Textures.MipChain | trunk/jsc3d/jsc3d.js:3386-3417 | the chain has k + 1 levels, starts with the texture, and level L is the L-times filtered texture |
| Textures.MipEntries | trunk/jsc3d/jsc3d.js:3386-3417 | the entry of level L is 4^L |
| Textures.MipLevelSize | trunk/jsc3d/jsc3d.js:3390-3416 | level L holds (width >> L)^2 texels |
| Textures.DownsampleStep | trunk/jsc3d/jsc3d.js:3396-3411 | the filter loop's pointers address the output texel and its 2x2 parents inside both levels |
| Textures.DownsampledAt | trunk/jsc3d/jsc3d.js:3396-3411 | texel (i, j) of the next level is the mean of the block at (2i, 2j) |
| Textures.SelectMipLevel | trunk/jsc3d/jsc3d.js:1594-1606 | the chosen level brackets the area ratio between 4^L and 4^(L+1), and the texture side is 2^(k-L) |
| Textures.BracketsMonotone | trunk/jsc3d/jsc3d.js:1594-1606 | a larger area ratio never selects a finer mip level |
| Textures.BracketsUnique | trunk/jsc3d/jsc3d.js:1594-1606 | a ratio has exactly one bracketing level |
| Textures.BracketsEdges | trunk/jsc3d/jsc3d.js:1595-1600 | a ratio below 4 selects level 0, and a ratio of at least 4^k selects the last level, which is 1x1 |
| Textures.TexelIndex | trunk/jsc3d/jsc3d.js:1729 | the lookup wraps both truncated coordinates modulo the side and lands inside the texture |
| Textures.Log2Pow2 | trunk/jsc3d/jsc3d.js:3389 | the level count of a 2^k texture is k |
| Textures.Texture.constructor | trunk/jsc3d/jsc3d.js:3251-3261 | a new texture is 0x0, with no data, no mip chain and no transparency |
| Textures.Texture.HasData | trunk/jsc3d/jsc3d.js:3375-3377 | true exactly when texel data is present |
| Textures.Texture.HasMipmap | trunk/jsc3d/jsc3d.js:3424-3426 | true exactly when a mip chain is present |
| Textures.Texture.GenerateMipmaps | trunk/jsc3d/jsc3d.js:3382-3418 | nothing changes for a 1x1 texture, a texture without data or one with a chain; otherwise the generated chain and entries are stored |
| Textures.Texture.CreateFromImage | trunk/jsc3d/jsc3d.js:3301-3369 | an empty image changes nothing; otherwise the texture is the chosen square size, holds the packed texels, raises the transparency flag exactly on a translucent texel, and has a chain exactly when asked |
| Textures.Texture.Load | trunk/jsc3d/jsc3d.js:3348-3363 | the texture holds the packed texels of the canvas, its transparency flag is raised on a translucent texel, and it has a chain exactly when asked |
| StlLoader.DetectBinary | trunk/jsc3d/jsc3d.js:4183-4192 | the scan reports binary exactly when a byte above 0x7f occurs among the 256 after the face count |
| StlLoader.SnippetDecides | trunk/jsc3d/jsc3d.js:4183-4192 | two files agreeing on those 256 bytes are classified alike |
| StlLoader.FacesWithin | trunk/jsc3d/jsc3d.js:4262-4263 | faces are 50-byte records from byte 84, and each declared face lies inside the expected length 84 + 50n |
| StlLoader.ReadTriple | trunk/jsc3d/jsc3d.js:4275-4280 | three numbers are read at the cursor, which moves 12 bytes |
| StlLoader.ReadFacet | trunk/jsc3d/jsc3d.js:4273-4291 | one face is its normal and three vertices, and the cursor moves 50 bytes |
| StlLoader.FacetsAtIndex | trunk/jsc3d/jsc3d.js:4273-4291 | face k of the read faces is the record stored at 84 + 50k |
| StlLoader.ReadFacets | trunk/jsc3d/jsc3d.js:4273-4291 | the face loop reads the n stored faces in order |
| StlLoader.ParseStl | trunk/jsc3d/jsc3d.js:4164-4267 | an ASCII file goes to the text parser, a binary file shorter than 84 + 50n is rejected, and otherwise exactly its n stored faces are read |
| LoaderSelection.LastSlash | trunk/jsc3d/jsc3d.js:568-570 | the separator position is -1 or inside the URL |
| LoaderSelection.SplitPathParts | trunk/jsc3d/jsc3d.js:3715-3721 | path and file name rejoin to the URL and the path is empty or ends with a separator; the file name holds no '/', and no '\\' when the URL has no '/' (for "a/b\\c" it is "b\\c", as in the source) |
| LoaderSelection.ExtensionParts | trunk/jsc3d/jsc3d.js:572-577 | a URL has an extension exactly when its file name holds a dot, and the extension is the dot-free tail after the last dot |
| LoaderSelection.LowerChar | trunk/jsc3d/jsc3d.js:3675 | the ASCII capitals 'A' to 'Z' map to their lower-case letters, and every other character to itself (ASCII only: see Left out) |
| LoaderSelection.ToLower | trunk/jsc3d/jsc3d.js:3675 | ASCII lower-casing maps each character on its own and so keeps the length (ASCII only: see Left out) |
| LoaderSelection.ToLowerIdempotent | trunk/jsc3d/jsc3d.js:3675 | lower-casing twice is lower-casing once |
| LoaderSelection.LoaderTable.constructor | trunk/jsc3d/jsc3d.js:4099 | the library registers the OBJ and STL loaders (the STL registration is at trunk/jsc3d/jsc3d.js:4388) |
| LoaderSelection.LoaderTable.Register | trunk/jsc3d/jsc3d.js:3663-3667 | a function constructor is stored under the extension as given; anything else changes nothing |
| LoaderSelection.LoaderTable.GetLoader | trunk/jsc3d/jsc3d.js:3674-3687 | the constructor registered under the lower-cased extension is used when there is one; otherwise the lookup succeeds exactly for 'constructor', whose inherited `Object` builds a plain object, and fails for every other extension |
| LoaderSelection.LoaderTable.GetLoaderIgnoresCase | trunk/jsc3d/jsc3d.js:3675 | an extension and its lower-case form select the same loader |
| LoaderSelection.LoaderTable.SelectLoader | trunk/jsc3d/jsc3d.js:565-580 | something is chosen exactly when the URL has an extension that is registered in lower case or is 'constructor' in any case, and it is what `getLoader` gives for that extension |
| LoaderSelection.LoaderTable.LoadScene | trunk/jsc3d/jsc3d.js:565-608 | `loadScene` declines exactly when nothing is selected, starts the selected loader, and throws exactly when the selection is the plain object, which has no `loadFromUrl` |
| LoaderSelection.DefaultSelection | trunk/jsc3d/jsc3d.js:565-580 | with the library's registrations a URL selects OBJ exactly for ".obj", STL exactly for ".stl", the plain object exactly for ".constructor" (each in any case), and nothing otherwise |
| LoaderSelection.ConstructorUrlThrows | trunk/jsc3d/jsc3d.js:3675-3687 | with the library's registrations, "models/a.Constructor" makes `loadScene` throw instead of declining |
| Math3D.Transformed | trunk/jsc3d/jsc3d.js:3624-3633 | n transformed points take 3n values |
| Math3D.TransformedAt | trunk/jsc3d/jsc3d.js:3624-3633 | point k of the transformed list is the matrix image of point k |
| Math3D.TransformVectors | trunk/jsc3d/jsc3d.js:3624-3633 | every point is replaced by its image, also when source and target are one array, and the rest of the target is kept |
| Math3D.TransformOne | trunk/jsc3d/jsc3d.js:3626-3631 | one loop turn writes the image of point n and keeps the points not yet read |
| Math3D.TransformVectorZs | trunk/jsc3d/jsc3d.js:3641-3649 | slot i receives the depth of point i's image, also when source and target are one array, and the rest is kept |
| Matrices.IdentityMatrix | trunk/jsc3d/jsc3d.js:3485-3489 | the identity maps every point to itself and is neutral on both sides of a product |
| Matrices.ProductApplies | trunk/jsc3d/jsc3d.js:3591-3608 | transforming by the product is transforming by the matrix, then by the multiplier |
| Matrices.ProductRowX | trunk/jsc3d/jsc3d.js:3591-3608 | the x coordinate of that composition |
| Matrices.ProductRowY | trunk/jsc3d/jsc3d.js:3591-3608 | the y coordinate of that composition |
| Matrices.ProductRowZ | trunk/jsc3d/jsc3d.js:3591-3608 | the z coordinate of that composition |
| Matrices.ScaledApplies | trunk/jsc3d/jsc3d.js:3497-3501 | a scaled matrix maps each point to the old image scaled per axis |
| Matrices.TranslatedApplies | trunk/jsc3d/jsc3d.js:3509-3513 | a translated matrix maps each point to the old image plus the offset, and only the last column changes |
| Matrices.Matrix3x4.constructor | trunk/jsc3d/jsc3d.js:3476-3480 | a new matrix is the identity |
| Matrices.Matrix3x4.Identity | trunk/jsc3d/jsc3d.js:3485-3489 | the matrix becomes the identity |
| Matrices.Matrix3x4.Scale | trunk/jsc3d/jsc3d.js:3497-3501 | the matrix becomes its scaled form |
| Matrices.Matrix3x4.Translate | trunk/jsc3d/jsc3d.js:3509-3513 | the matrix becomes its translated form |
| Matrices.Matrix3x4.Multiply | trunk/jsc3d/jsc3d.js:3591-3608 | the matrix becomes the multiplier times its old value, also when the multiplier is the matrix itself |
| ObjText.Split | trunk/jsc3d/jsc3d.js:3851 | split yields at least one piece |
| ObjText.SplitJoin | trunk/jsc3d/jsc3d.js:3851 | joining the pieces gives the string back, and no piece holds the separator |
| ObjText.JoinSplit | trunk/jsc3d/jsc3d.js:3851 | splitting separator-free pieces joined gives the pieces back |
| ObjText.SplitBlanks | trunk/jsc3d/jsc3d.js:3854 | splitting at blank runs yields at least one token |
| ObjText.TokensHaveNoBlank | trunk/jsc3d/jsc3d.js:3854 | no token holds a space or a tab |
| ObjText.InnerTokensNonEmpty | trunk/jsc3d/jsc3d.js:3854 | only the first and last tokens may be empty |
| ObjText.TokensConcat | trunk/jsc3d/jsc3d.js:3854 | the tokens together are the line with its blanks removed |
| ObjText.DecimalValue | trunk/jsc3d/jsc3d.js:3906 | reading the decimal digits of a count gives the count back |
| ObjText.DecimalInjective | trunk/jsc3d/jsc3d.js:3906 | different counts are written differently |
| ObjText.ParseSigned | trunk/jsc3d/jsc3d.js:3878 | parseInt reads back a signed decimal followed by a non-digit |
| ObjText.DigitsThenOther | trunk/jsc3d/jsc3d.js:3878 | a digit run followed by a non-digit is read exactly to its end |
| ObjLoader.VertexRefs | trunk/jsc3d/jsc3d.js:3876-3878 | a face line's references yield one vertex index each |
| ObjLoader.TexRefs | trunk/jsc3d/jsc3d.js:3879-3882 | at most one texture index per reference |
| ObjLoader.TexSoFarStep | trunk/jsc3d/jsc3d.js:3879-3883 | each reference naming a texture coordinate appends it, creating the texture stream on first use |
| ObjLoader.StreamsUpdated | trunk/jsc3d/jsc3d.js:3874-3888 | changing a mesh's streams keeps the grouping of meshes by material |
| ObjLoader.GroupAdded | trunk/jsc3d/jsc3d.js:3901-3911 | a new mesh under a new key, named with the next count, extends the grouping |
| ObjLoader.CurrentMoved | trunk/jsc3d/jsc3d.js:3912-3916 | making any existing mesh current keeps the grouping |
| ObjLoader.NamesDistinct | trunk/jsc3d/jsc3d.js:3844-3906 | the generated mesh names are pairwise distinct |
| ObjLoader.ObjParser.constructor | trunk/jsc3d/jsc3d.js:3832-3849 | parsing starts with only the current default mesh "obj-0" and empty lists |
| ObjLoader.ObjParser.AddVertex | trunk/jsc3d/jsc3d.js:3858-3864 | a 'v' line with three numbers appends them, a shorter one changes nothing, and nothing else changes |
| ObjLoader.ObjParser.AddTexCoord | trunk/jsc3d/jsc3d.js:3868-3873 | a 'vt' line with two numbers appends u and 1 - v, a shorter one changes nothing |
| ObjLoader.ObjParser.AddFace | trunk/jsc3d/jsc3d.js:3874-3888 | an 'f' line appends its vertex indices and -1 to the current mesh, and its texture indices and -1 when it names any |
| ObjLoader.ObjParser.FaceStreams | trunk/jsc3d/jsc3d.js:3876-3887 | the reference loop appends all the line's vertex and texture indices, then the sentinels |
| ObjLoader.ObjParser.AddReference | trunk/jsc3d/jsc3d.js:3877-3883 | one reference appends its vertex index and, when named, its texture index |
| ObjLoader.ObjParser.UseLibrary | trunk/jsc3d/jsc3d.js:3890-3897 | an 'mtllib' line sets and records the library, or clears it without a name |
| ObjLoader.ObjParser.UseMaterial | trunk/jsc3d/jsc3d.js:3898-3918 | 'usemtl' under a library makes the library-material mesh current, creating it with the next name when new; otherwise the default mesh becomes current |
| ObjLoader.ObjParser.State | trunk/jsc3d/jsc3d.js:3832-3842 | the parser's fields as one value, with the same meshes, keys and current mesh |
| ObjLoader.Start | trunk/jsc3d/jsc3d.js:3832-3849 | the state before the first line satisfies the grouping invariant |
| ObjLoader.LineStepValid | trunk/jsc3d/jsc3d.js:3853-3924 | every kind of line keeps the grouping invariant and the whole-entry lists |
| ObjLoader.ObjParser.ParseLine | trunk/jsc3d/jsc3d.js:3853-3924 | the new state is the line's step from the old one: a 'v', 'vt', 'f', 'mtllib' or 'usemtl' line has that keyword's effect, and any other line changes nothing |
| ObjLoader.ParseAll | trunk/jsc3d/jsc3d.js:3851-3925 | the lines applied in file order keep the grouping invariant |
| ObjLoader.ParseAllAppend | trunk/jsc3d/jsc3d.js:3851-3925 | reading a file in two parts is reading the first and then the second |
| ObjLoader.LineStepVertices | trunk/jsc3d/jsc3d.js:3858-3864 | one line adds to the vertex list exactly the first three numbers of a 'v' line that has three, and nothing for any other line |
| ObjLoader.LineStepTexCoords | trunk/jsc3d/jsc3d.js:3868-3873 | one line adds to the texture-coordinate list exactly u and 1 - v of a 'vt' line that has two numbers, and nothing for any other line |
| ObjLoader.LineStepLibraries | trunk/jsc3d/jsc3d.js:3890-3897 | one line adds to the library list exactly the name of a named 'mtllib' line, and nothing for any other line |
| ObjLoader.ParseAllVertices | trunk/jsc3d/jsc3d.js:3851-3864 | after any lines the vertex list has grown by exactly what the 'v' lines name, in file order |
| ObjLoader.ParseAllTexCoords | trunk/jsc3d/jsc3d.js:3851-3873 | after any lines the texture-coordinate list has grown by exactly what the 'vt' lines name, in file order |
| ObjLoader.ParseAllLibraries | trunk/jsc3d/jsc3d.js:3851-3897 | after any lines the library list has grown by exactly the names of the 'mtllib' lines, in file order |
| ObjLoader.LineStepKeepsMeshes | trunk/jsc3d/jsc3d.js:3874-3918 | after one line a made mesh keeps its name, material and place in creation order, and its stream is only extended |
| ObjLoader.ParseAllKeepsMeshes | trunk/jsc3d/jsc3d.js:3851-3925 | the same after any lines |
| ObjLoader.ObjParser.ParseLines | trunk/jsc3d/jsc3d.js:3851-3925 | the state after the loop is every line of the file applied in order |
| ObjLoader.CompactedDrawable | trunk/jsc3d/jsc3d.js:3933-3986 | a compacted mesh can be drawn exactly when vertices were read, its index stream has at least three entries and it references some vertex |
| ObjLoader.Kept | trunk/jsc3d/jsc3d.js:3930-3986 | no more meshes are added than were parsed |
| ObjLoader.KeptMembers | trunk/jsc3d/jsc3d.js:3930-3986 | a mesh is added exactly when it is the drawable compaction of a parsed mesh, and it carries that mesh's generated name |
| ObjLoader.ObjParser.AddMeshesTo | trunk/jsc3d/jsc3d.js:3927-3987 | the scene gains, after its old children and in creation order, exactly the fresh compacted meshes that can be drawn, and its ids stay increasing |
| ObjLoader.AddMeshes | trunk/jsc3d/jsc3d.js:3930-3987 | the same over a parser state, with the loop adding one compacted mesh per key when it can be drawn |
| ObjLoader.ParseObj | trunk/jsc3d/jsc3d.js:3831-3989 | the whole parse: the scene gains the drawable compactions of the meshes the lines make, in creation order, and the result lists the 'mtllib' names in file order |
| ObjLoader.ParseText | trunk/jsc3d/jsc3d.js:3831-3925 | a fresh parser reads every line of the file from the start state, and its library list holds the 'mtllib' names in file order |
| ObjLoader.CompactStream | trunk/jsc3d/jsc3d.js:3934-3957 | a stream is renumbered by first appearance, and its own list gathers the referenced entries in that order |
| ObjLoader.CompactWhenPresent | trunk/jsc3d/jsc3d.js:3933-3983 | a stream is compacted exactly when its global list and the stream are non-empty; otherwise it is kept and gets no list |
| ObjLoader.Offer | trunk/jsc3d/jsc3d.js:3985-3986 | a mesh joins the scene exactly when it is not trivial |
| ObjLoader.BuildMesh | trunk/jsc3d/jsc3d.js:3930-3983 | the new mesh's name and four buffers are the parsed mesh's compaction: compacted lists and renumbered streams with data present, kept streams and no list otherwise |
| ObjCompaction.Firsts | trunk/jsc3d/jsc3d.js:3940-3956 | the first appearances are no more than the entries scanned |
| ObjCompaction.Renumber | trunk/jsc3d/jsc3d.js:3940-3956 | the rewritten stream keeps its length |
| ObjCompaction.RenumberPoints | trunk/jsc3d/jsc3d.js:3940-3956 | a rewritten entry is -1 exactly when it was, and otherwise indexes the mesh's list at the global index it held |
| ObjCompaction.LocalMatchesGlobal | trunk/jsc3d/jsc3d.js:3940-3956 | every coordinate a rewritten entry reaches is the coordinate the original entry reached |
| ObjCompaction.Compact | trunk/jsc3d/jsc3d.js:3935-3956 | the in-place walk rewrites the stream by first appearance and gathers the referenced entries |
| ObjCompaction.ResetLookup | trunk/jsc3d/jsc3d.js:3935-3936 | every lookup slot becomes -1 |
| ObjCompaction.CompactStep | trunk/jsc3d/jsc3d.js:3941-3955 | one entry of the walk extends the rewritten prefix, the lookup table and the gathered list |
| ObjCompaction.FirstsDistinct | trunk/jsc3d/jsc3d.js:3943-3950 | each reference is copied once |
| ObjCompaction.FirstAppearance | trunk/jsc3d/jsc3d.js:3943-3950 | new indices are handed out 0, 1, 2, ... in order of first appearance |
| ObjCompaction.FirstsMembers | trunk/jsc3d/jsc3d.js:3940-3956 | a value is copied exactly when it is a non-sentinel entry of the stream |
| ObjCompaction.FirstsPrefix | trunk/jsc3d/jsc3d.js:3940-3956 | the copies of a prefix begin those of a longer prefix |
| ObjCompaction.RenumberEntry | trunk/jsc3d/jsc3d.js:3940-3956 | a rewritten entry does not depend on the entries after it |
| ObjCompaction.ResolvesFirsts | trunk/jsc3d/jsc3d.js:3940-3956 | every copied reference names a global entry |
| ObjCompaction.SameReferenceSameIndex | trunk/jsc3d/jsc3d.js:3943-3954 | two entries get the same new index exactly when they held the same reference |
| ObjCompaction.GatherLength | trunk/jsc3d/jsc3d.js:3944-3947 | the mesh's own list holds one block per copied reference |
| ObjCompaction.GatherBlock | trunk/jsc3d/jsc3d.js:3944-3947 | block k of the mesh's list is the global block of the k-th copied reference |
| Raster.Classify | trunk/jsc3d/jsc3d.js:1178-1182 | high is a topmost and low a bottommost corner, they coincide exactly for a flat triangle, and mid is the third corner between them |
| Raster.OrderedLine | trunk/jsc3d/jsc3d.js:1221-1229 | the ordered span runs left to right over the same two ends, and its depth line passes through both |
| Raster.SlopeReaches | trunk/jsc3d/jsc3d.js:1442 | the depth slope between two distinct columns reaches the second end |
| Raster.SmoothSetupLine | trunk/jsc3d/jsc3d.js:1429-1451 | the clamped fill stays in the row, keeps on-screen ends, and gives every column the unclamped line's depth |
| Raster.FlatSetupLine | trunk/jsc3d/jsc3d.js:1221-1236 | flat set-up clamps like smooth set-up, starts at the left depth, and ends at the right depth |
| Raster.BlendRed | trunk/jsc3d/jsc3d.js:1742 | the red blend formula, weighted by a texel's alpha byte, is the opacity-weighted mix of the red channels |
| Raster.BlendGreen | trunk/jsc3d/jsc3d.js:1743 | the green blend formula, weighted by a texel's alpha byte, is the opacity-weighted mix of the green channels |
| Raster.BlendBlue | trunk/jsc3d/jsc3d.js:1744 | the blue blend formula, weighted by a texel's alpha byte, is the opacity-weighted mix of the blue channels |
| Raster.BlendBits | trunk/jsc3d/jsc3d.js:1740-1745 | for a byte opacity (the texel's alpha), the masked, shifted and ORed blend is channel-wise (back * (255 - opacity) + fore * opacity) / 256 |
| Raster.RedProductIs | trunk/jsc3d/jsc3d.js:2014 | the red product term is the product of the red channels, one byte up |
| Raster.GreenProductIs | trunk/jsc3d/jsc3d.js:2015 | the green product term is the product of the green channels |
| Raster.BlueProductIs | trunk/jsc3d/jsc3d.js:2016 | the blue product term is the scaled product of the blue channels |
| Raster.ModulateBits | trunk/jsc3d/jsc3d.js:2014-2017 | the masked and ORed products are channel-wise colour * texel / 256 |
| Raster.SarAlpha | trunk/jsc3d/jsc3d.js:1740 | `(texel >> 24) & 0xff` is the texel's alpha, although the shift is arithmetic |
| Raster.LitAlphaBits | trunk/jsc3d/jsc3d.js:2028 | the lit opacity is texel alpha times material opacity over 256 |
| Raster.LitRed | trunk/jsc3d/jsc3d.js:2037 | the lit red blend is the unscaled product blended with the background and divided once |
| Raster.LitGreen | trunk/jsc3d/jsc3d.js:2038 | the lit green blend, likewise |
| Raster.LitBlue | trunk/jsc3d/jsc3d.js:2039 | the lit blue blend mixes the scaled product with the background |
| Raster.LitBlendBits | trunk/jsc3d/jsc3d.js:2028-2041 | the whole lit translucent write is the channel-wise lit blend |
| Raster.ShadeDepth | trunk/jsc3d/jsc3d.js:2032-2040 | depth is written exactly for opaque colours and for lit texels whose opacity exceeds 250 |
| Raster.Dab | trunk/jsc3d/jsc3d.js:1240-1244 | a depth-tested write keeps the buffers' size |
| Raster.DabCell | trunk/jsc3d/jsc3d.js:1240-1258 | a write touches only its cell, only when nearer, never moves depth back, and sets the shaded colour and the mesh id |
| Raster.PaintCell | trunk/jsc3d/jsc3d.js:1240-1244 | an opaque write sets depth, colour and id together exactly when nearer |
| Raster.Run | trunk/jsc3d/jsc3d.js:1239-1246 | a span of writes keeps the buffers' size |
| Raster.RunCell | trunk/jsc3d/jsc3d.js:1239-1260 | each covered cell ends as one depth-tested write on the original buffers, and every other cell is untouched |
| Raster.PaintRunCell | trunk/jsc3d/jsc3d.js:1231-1247 | an opaque span changes exactly the covered cells that are nearer, setting depth, colour and id together |
| Raster.TranslucentRunKeepsDepth | trunk/jsc3d/jsc3d.js:1249-1260 | translucent colours and texels never change the depth buffer |
| Raster.RampStep | trunk/jsc3d/jsc3d.js:1239 | the span depth advances by the step at each column |
| Raster.FillSpan | trunk/jsc3d/jsc3d.js:1237-1261 | the in-place span loop leaves the buffers as the span of depth-tested writes on the old buffers |
| Raster.DabArrays | trunk/jsc3d/jsc3d.js:1240-1244 | the in-place write is the depth-tested write |
| Raster.FootprintInside | trunk/jsc3d/jsc3d.js:966-967 | the four cells of an inside point lie in the frame |
| Raster.Footprint | trunk/jsc3d/jsc3d.js:966-991 | point plotting keeps the buffers' size |
| Raster.FootprintCell | trunk/jsc3d/jsc3d.js:966-991 | an inside point writes exactly its four cells that are nearer; an outside point writes nothing |
| Raster.FourCells | trunk/jsc3d/jsc3d.js:967-990 | four opaque writes at distinct cells each take effect exactly when nearer |
| Raster.PlotPoint | trunk/jsc3d/jsc3d.js:963-991 | the in-place point step leaves the buffers as the footprint on the old buffers |
| Viewers.FrameCellInside | trunk/jsc3d/jsc3d.js:392-409 | every canvas pixel maps into the working frame sized for its quality level |
| Viewers.LevelBetween | trunk/jsc3d/jsc3d.js:715-717 | the masked gradient channel is the exact floored interpolation and lies between its end values |
| Viewers.BackgroundTop | trunk/jsc3d/jsc3d.js:713-717 | the top row is the first background colour |
| Viewers.BackgroundBetween | trunk/jsc3d/jsc3d.js:714-717 | each channel of each row lies between the two end colours' channels |
| Viewers.LevelMonotone | trunk/jsc3d/jsc3d.js:714-717 | each channel moves monotonically down the frame |
| Viewers.ChannelsDown | trunk/jsc3d/jsc3d.js:706-711 | the mask-and-shift expressions give the three channels |
| Viewers.LowSourceAt | trunk/jsc3d/jsc3d.js:772-787 | at low quality pixel (i, j) shows working cell (i/2, j/2) |
| Viewers.LowDuplicates | trunk/jsc3d/jsc3d.js:772-787 | the four pixels of a 2x2 block show the same working cell |
| Viewers.HighSourceAt | trunk/jsc3d/jsc3d.js:790-805 | at high quality pixel (i, j) averages the block at (2i, 2j) |
| Viewers.LowInside | trunk/jsc3d/jsc3d.js:164-165 | the low-quality source cell lies in the half-size frame |
| Viewers.HighInside | trunk/jsc3d/jsc3d.js:168-169 | the high-quality block lies in the double-size frame |
| Viewers.HighRed | trunk/jsc3d/jsc3d.js:797 | the summed masked reds shifted by 18 are the floored mean red |
| Viewers.HighGreen | trunk/jsc3d/jsc3d.js:798 | the summed masked greens shifted by 10 are the floored mean green |
| Viewers.HighBlue | trunk/jsc3d/jsc3d.js:799 | the summed blues shifted by 2 are the floored mean blue |
| Viewers.MeanRed | trunk/jsc3d/jsc3d.js:797 | the red the high pass computes is the floored mean red |
| Viewers.MeanGreen | trunk/jsc3d/jsc3d.js:798 | the green the high pass computes is the floored mean green |
| Viewers.MeanBlue | trunk/jsc3d/jsc3d.js:799 | the blue the high pass computes is the floored mean blue |
| Viewers.PutPixel | trunk/jsc3d/jsc3d.js:779-782 | the pixel shows the three channels fully opaque, and earlier pixels are kept |
| Viewers.PresentStandard | trunk/jsc3d/jsc3d.js:809-815 | every canvas pixel shows its working cell |
| Viewers.PresentLow | trunk/jsc3d/jsc3d.js:772-787 | every canvas pixel shows the working cell at half its coordinates |
| Viewers.LowRowStep | trunk/jsc3d/jsc3d.js:786 | the source index steps back or forward to the start of the next working row |
| Viewers.PresentLowRow | trunk/jsc3d/jsc3d.js:777-785 | one low-quality row is presented and the source index moves half a row |
| Viewers.PresentLowPixel | trunk/jsc3d/jsc3d.js:778-784 | one more low-quality pixel is presented |
| Viewers.PresentHigh | trunk/jsc3d/jsc3d.js:790-805 | every canvas pixel shows the floored channel means of its 2x2 block |
| Viewers.HighRowStep | trunk/jsc3d/jsc3d.js:804 | skipping a row after each canvas row reaches the next block row |
| Viewers.PresentHighRow | trunk/jsc3d/jsc3d.js:792-803 | one high-quality row is presented and the source index moves one working row |
| Viewers.PresentHighPixel | trunk/jsc3d/jsc3d.js:793-802 | one more high-quality pixel is presented |
| Viewers.ShowHighPixel | trunk/jsc3d/jsc3d.js:797-800 | the averaged channels are written for the pixel |
| Viewers.SplitColor | trunk/jsc3d/jsc3d.js:706-708 | the three channels of a colour |
| Viewers.PackColor | trunk/jsc3d/jsc3d.js:720 | the colour packed from three channels |
| Viewers.FillGradient | trunk/jsc3d/jsc3d.js:713-722 | every frame cell takes its row's gradient colour, and cells past the frame are kept |
| Viewers.FillGradientRow | trunk/jsc3d/jsc3d.js:714-721 | one more row takes its gradient colour |
| Viewers.FillRow | trunk/jsc3d/jsc3d.js:719-721 | the row's cells take the colour and all others are kept |
| Viewers.Clear | trunk/jsc3d/jsc3d.js:751-755 | every frame cell gets its background colour, the farthest depth and id 0; cells past the frame are kept |
| Viewers.NoMeshHasIdZero | trunk/jsc3d/jsc3d.js:410 | id 0 names no mesh |
| Viewers.FirstWithIdUnique | trunk/jsc3d/jsc3d.js:412-417 | the first child with an id is the only one |
| Viewers.Viewer.constructor | trunk/jsc3d/jsc3d.js:159-199 | a new viewer has its frame sized for the quality level, its buffers allocated and its background generated; `drawBackground` (729-756) leaves every working cell with its background colour, the farthest depth and id 0, and the canvas showing that frame |
| Viewers.Viewer.GenerateBackground | trunk/jsc3d/jsc3d.js:701-723 | every working cell holds its row's gradient colour |
| Viewers.Viewer.BeginScene | trunk/jsc3d/jsc3d.js:743-756 | every working cell is reset to the background colour, the farthest depth and no mesh |
| Viewers.Viewer.EndScene | trunk/jsc3d/jsc3d.js:762-818 | every canvas pixel shows what the viewer's quality level presents from the working frame |
| Viewers.Viewer.SetDefinition | trunk/jsc3d/jsc3d.js:265-306 | the same level changes nothing; a new level resizes the frame, replaces only buffers that are too small, and regenerates the background |
| Viewers.Viewer.Resize | trunk/jsc3d/jsc3d.js:275-304 | the frame is sized for the level and only buffers that are too small are replaced |
| Viewers.Viewer.PickedCell | trunk/jsc3d/jsc3d.js:395-409 | the cell under a canvas pixel lies inside the selection and depth buffers |
| Viewers.Viewer.Pick | trunk/jsc3d/jsc3d.js:383-427 | off-canvas or id 0 gives no mesh; an id with no scene throws (exactly then); otherwise the mesh is the first child with the stored id, if any, and its depth is reported |
| Viewers.Regrow | trunk/jsc3d/jsc3d.js:293-304 | each buffer is kept when large enough and otherwise replaced by a fresh one of exactly the frame size |

## Left out

- Canvas and DOM I/O is not modelled: `getContext`, `getImageData`, `putImageData` and the paint call. Presenting writes into a byte array that stands for the canvas data.
- Mouse, touch and keyboard handlers and the camera manipulation they drive are left out, because they are user-input glue.
- The `setInterval` tick, the update flags and `requestCount` callbacks are left out, because they only schedule frames.
- Resource fetching is not modelled: XMLHttpRequest, `Image` loading and `createFromUrl`.
- `Textures.Texture.CreateFromImage` takes the canvas's RGBA bytes as a parameter, because drawing the image onto the canvas is DOM I/O.
- The progress bar and error overlays are left out, because they are drawing on the DOM.
- Trigonometric rotations (`rotateAboutXAxis` and the others) are not modelled, because sine and cosine have no exact real counterpart here.
- Square-root normalisation is not modelled: `normalizeFaceNormals`, the second loop of `calcVertexNormals` and `lengthOfDiagonal`. The same holds for the zoom factor derived from it.
- Meshes.Mesh.CalcVertexNormals: stops at the accumulated (un-normalised) normals, because normalising needs a square root.
- Floating-point edge stepping and `~~(v + 0.5)` rounding are left out. Span endpoints and corner rows are inputs to the span and classification members, and depth is interpolated over reals.
- The wireframe renderer's floating-point line stepping is left out, for the same reason.
- The palette index `~~(nz * 255)` and the sphere-map coordinates are floating-point products of a unit normal, so they are not modelled. The palette and the texel lookup take the index and the coordinates as inputs.
- Material transparency is not computed from a real number. The flat and smooth renderers weigh their blends by the unrounded `transparency * 255` and `255 - transparency * 255` (`trunk/jsc3d/jsc3d.js:1132-1133`, `1308-1309`), which feed the blends at 1253-1255 and 1468-1470. Only the textured renderers truncate, in `matOpacity = ~~((1 - transparency) * 255)` (1803, 2101). The blend members take a byte weight, so they cover the texel-alpha blend, the textured renderers' truncated opacity, and flat or smooth blends whose `transparency * 255` is a whole number. Fractional weights are left out.
- Raster.FillSpan: a translucent flat or smooth span (`Tint`) is modelled only for a whole-number weight `transparency * 255`. With a fractional weight the source's result need not match any byte weight (transparency 0.5 gives 127 for both 255 over 0 and 0 over 255).
- The `render` dispatch over modes and the per-frame transform sequence (`trunk/jsc3d/jsc3d.js:824-886`) are left out. They only sequence the modelled parts with floating-point set-up.
- `parseFloat` is a function parameter of the OBJ parser, and NaN from unreadable numbers is not modelled.
- The ASCII STL branch and the vertex welding through `toFixed` keys are left out, because they need decimal float formatting.
- `parseMtl` and `setupTexture` are left out, because they only fetch and attach resources.
- ObjText.ParseSigned: covers decimal text only; the hexadecimal prefix and the leading-whitespace skipping of `parseInt` are not modelled, because face tokens are split at blanks and written in decimal.
- ObjLoader.ObjParser.AddFace: requires every number on a face line to be readable. Where a number cannot be read, the source pushes NaN, which a real-valued model cannot hold.
- ObjLoader.ObjParser.AddMeshesTo: requires every reference to name an existing vertex or texture coordinate. Where one does not, the source stores `undefined`.
- ObjLoader.ParseObj: requires, as AddFace and AddMeshesTo do, readable face numbers and references that name existing entries.
- OBJ meshes are kept as values in a map, with their keys listed in the order they were made. Every key is "nomtl" or a library name, '-' and a material name, which is never an array-index string, so `for (var id in meshes)` visits them in exactly that order. The key-collision quirk of joining library and material with '-' is kept.
- Math3D.TransformVectors: requires a length divisible by three, as every caller supplies.
- Math3D.TransformVectorZs: requires a length divisible by three, likewise.
- `Mesh.init` and `Scene.init` are left out, because they only sequence the modelled `calc*` steps and the normalisation.
- The `try`/`catch` around loader construction is modelled by its outcome only: a plain object for the inherited 'constructor' key, none for the other inherited names. Negative zero, and reading STL bytes through `charCodeAt(i) & 0xff` are left out. Bytes are given directly.
- Viewers.Viewer.Pick: takes canvas coordinates, because `getBoundingClientRect` is DOM I/O, and assumes a selection buffer is present. The TypeError for an id with no scene is an outcome, not an exception.
- Textures.Log2Pow2: the mip level count uses an exact base-2 logarithm of a power of two rather than the floating-point `Math.log`.
- Scenes.SortScene: the library's `Array.prototype.sort` is modelled by insertion sort. Only sortedness and permutation are claimed, not the order of equal keys.
- Frame buffers are initialised with values rather than left `undefined`.
- Meshes.Mesh.HasTexture: states only necessary conditions for texture mapping (one direction of the test).
- LoaderSelection.LowerChar: lower-cases only the ASCII capitals 'A' to 'Z'. JavaScript's `toLowerCase` also maps every other Unicode capital ('Ä' to 'ä'), so `getLoader('Ö')` finds a loader registered as 'ö' in the source but not here. Full Unicode case mapping is not modelled.
- LoaderSelection.ToLower: ASCII only and length-preserving. `toLowerCase` can also lengthen a string ('İ' becomes 'i' and a combining dot); extensions are taken to be ASCII.
- LoaderSelection.LoaderTable.GetLoader: the ASCII restriction of ToLower carries over. Of the names a plain object inherits, only 'constructor' is modelled as present, because the others are not constructors and give null.
- LoaderSelection.LoaderTable.Register: registering under '__proto__' replaces the table's prototype in JavaScript instead of adding an entry; the model stores it as an ordinary entry.
- Raster.FillSpan: the opaque textured span stores the whole 32-bit texel, alpha included, into the colour buffer; the model's colour cells keep only its low 24 bits. Every reader masks the channels, so nothing drawn differs.
