# mpfb2 core in Dafny

This project models the host-independent core of MPFB, the MakeHuman plugin for Blender, and proves properties of it. Four parts are covered:

- **Targets and shape keys** (`src/mpfb/services/targetservice.py`):
  - the `.target` text format: the writer with its number formatter, and the reader that inverts it;
  - applying a parsed target to the basis coordinates;
  - the mirror table and left/right symmetrisation;
  - shape-key name rules: the "is this a target" guess, the abbreviation table, and names derived from file names;
  - the `.mhm` modifier-line translator;
  - the stack of targets on a mesh: listing, lookup, setting and pruning;
  - the macro-detail combinator.
- **MakeHuman material settings** (`src/mpfb/entities/material/mhmaterial.py`): the `MhMaterial` settings store. It is filled line by line from `.mhmat` text or copied from MakeHuman's material info. It answers case-insensitive lookups and writes itself back out as `.mhmat` text.
- **Composite node-group rules** (`src/mpfb/entities/nodemodel/v2/composites/abstractgroupwrapper.py`): tree validation, composite node colours, the socket-type whitelist and how a link finds its sockets.
- **Material helpers** (`src/mpfb/services/materialservice.py`): material classification, ink-layer numbering, the UV-name rule of ink layers, library path splitting and the static diffuse colours.

Blender objects are modelled as the data these rules read:
- a mesh is its type and its shape keys as `(name, value)` records;
- a node tree is its nodes' names, kinds and values;
- coordinate buffers are arrays.

Python's `str` operations are written out on `seq<char>` in module `Text`, and `int()`/`float()` in module `Numbers`.

One defect of the source is recorded under Findings. `translate_mhm_target_line_to_target_fragment` tests for a "modifier " prefix but discards the result of `replace`, so the prefix stays on the line. The model keeps that translator as written beside a corrected one, and the translating method uses the corrected one.

## Model

| member | source | states |
|---|---|---|
| TargetNames.ShapekeyIsTarget | src/mpfb/services/targetservice.py:85-103 | empty names and "basis" in any case are not targets; otherwise a name is a target iff it starts with "$md", contains an opposites entry, its "-low" or its "-high", or is one of the odd names |
| TargetNames.SidedNameIsTarget | src/mpfb/services/targetservice.py:95-100 | any name ending in "-" followed by either side of an opposites pair is a target |
| TargetNames.EncodeShapekeyName | src/mpfb/services/targetservice.py:878-883 | the loop applies the replacements of the abbreviation table one after another in table order ("female" before "male") |
| TargetNames.DecodeShapekeyName | src/mpfb/services/targetservice.py:885-890 | the loop applies the reverse replacements, in table order |
| TargetNames.EncodeUnchanged | src/mpfb/services/targetservice.py:46-63 | a name containing none of the long words is returned unchanged by the encoder |
| TargetNames.DecodeUnchanged | src/mpfb/services/targetservice.py:46-63 | a name without '$' holds no code and is returned unchanged by the decoder |
| TargetNames.EncodeMacrodetail | src/mpfb/services/targetservice.py:46-63 | every encoded "macrodetail-…" name starts with "$md-": no later replacement touches that prefix |
| TargetNames.DropSuffix | src/mpfb/services/targetservice.py:899-900 | a case-insensitive suffix is removed when it ends the name; the name is unchanged when neither it nor the name without a final line feed ends with it |
| TargetNames.Basename | src/mpfb/services/targetservice.py:897 | the base name holds no '/', ends the path, and is the whole path or follows its last '/' |
| TargetNames.PlainTargetFileName | src/mpfb/services/targetservice.py:896-919 | "dir/stem.target.gz" with a stem of at most 60 characters and no macrodetail gives back the stem |
| TargetNames.StemOf | src/mpfb/services/targetservice.py:897-900 | the stem of "DIR/STEM" followed by ".target" or ".ptarget" in any case, with or without ".gz" in any case, is STEM |
| TargetNames.PlainNameEncoding | src/mpfb/services/targetservice.py:912-919 | without macrodetail and without a choice, a stem longer than 60 characters is encoded and a shorter one is kept; an explicit encode_name is obeyed |
| TargetNames.MacroNameUnencoded | src/mpfb/services/targetservice.py:907-919 | a macrodetail name with encode_name=False is "macrodetail-" plus the stem, unencoded |
| TargetNames.MacroFromPath | src/mpfb/services/targetservice.py:902-905 | with macrodetail None the name is a macrodetail exactly when the lower-cased absolute path contains the macrodetail directory |
| TargetNames.MacrodetailFileName | src/mpfb/services/targetservice.py:906-916 | a macrodetail file name, unless encoding is turned off explicitly, yields an encoded "$md-…" name that counts as a target |
| TargetNames.RewriteEffect | src/mpfb/services/targetservice.py:132-140 | when some "neg\|pos" term occurs in the line the weight ends non-negative (its absolute value), otherwise name and weight are untouched |
| TargetNames.RewriteOne | src/mpfb/services/targetservice.py:132-140 | when exactly one "neg\|pos" term occurs in the line, the name has it replaced by neg for a negative weight and by pos otherwise, and the weight becomes its absolute value |
| TargetNames.AfterSlash | src/mpfb/services/targetservice.py:144-145 | the result ends the name and equals it exactly when the name holds no '/' |
| TargetNames.TranslateAsWritten | src/mpfb/services/targetservice.py:126-147 | the translator as written: a line without a space is a ValueError, and ValueError is the only error |
| TargetNames.Translate | src/mpfb/services/targetservice.py:126-147 | the corrected translator differs from the one as written only on lines starting with "modifier ", and raises only ValueError |
| TargetNames.TranslateMhmTargetLine | src/mpfb/services/targetservice.py:122-147 | the method computes the corrected translator, whose cases TranslateErr, TranslateOpposite and TranslatePlain state |
| TargetNames.TranslateErr | src/mpfb/services/targetservice.py:128-130 | a line without a space, or with a weight that is not a float, is a ValueError |
| TargetNames.TranslateOpposite | src/mpfb/services/targetservice.py:128-147 | "DIR/STEM WEIGHT" holding exactly one "neg\|pos" term translates to STEM with the term replaced by neg for a negative weight and pos otherwise, and the absolute weight |
| TargetNames.TranslatePlain | src/mpfb/services/targetservice.py:128-147 | "DIR/STEM WEIGHT" holding no "neg\|pos" term translates to STEM and the weight as written |
| TargetNames.ModifierLineRejected | src/mpfb/services/targetservice.py:126-130 | as written, "modifier NAME WEIGHT" keeps its prefix, so the weight text holds a space and the translation fails |
| TargetNames.ModifierLineTranslated | src/mpfb/services/targetservice.py:126-130 | with the prefix dropped, "modifier REST" translates exactly like REST |
| TargetHeader.HeaderLinesStartWithHash | src/mpfb/services/targetservice.py:21-28 | every header line starts with '#' |
| TargetHeader.HeaderLinesAreSingleLines | src/mpfb/services/targetservice.py:21-28 | no header line holds a line break, so the header reads back as the same lines |
| TargetFile.FmtIsDecimal | src/mpfb/services/targetservice.py:290-296 | the formatter (three decimals, '0' stripped from both ends, "0" for zero, ".0" appended to integral values, sign of the value) prints the number's decimal notation |
| TargetFile.DecimalProperties | src/mpfb/services/targetservice.py:290-296 | the text is "0" iff the value is zero; it starts with '-' iff the value is negative; below one it starts with "." or "-."; integral values end in ".0"; no other value ends in '0' |
| TargetFile.ParseDecimal | src/mpfb/services/targetservice.py:290-296 | `float` of the formatted text is the value itself, for every three-decimal value |
| TargetFile.ShapeKeyInfoAsTargetString | src/mpfb/services/targetservice.py:285-302 | the writer's loop produces the optional header followed by one "index x z -y" line per vertex, in order |
| TargetFile.TargetStringToShapeKeyInfo | src/mpfb/services/targetservice.py:304-331 | the reader's loop skips blank, '#' and '"' lines, reads index, x, z and -y, and stops at the first malformed line with its error |
| TargetFile.ParseVertexLine | src/mpfb/services/targetservice.py:298-325 | one written vertex line reads back as the same index and coordinates, y negated twice |
| TargetFile.SkipCommentLines | src/mpfb/services/targetservice.py:317 | lines the reader skips can be dropped from the front without changing the result |
| TargetFile.TargetTextRoundTrip | src/mpfb/services/targetservice.py:285-331 | reading what the writer wrote, with or without header, returns the same vertices in the same order |
| ShapeKeyCoords.PyIndex | src/mpfb/services/targetservice.py:276-279 | an index is accepted iff Python accepts it, a negative one counting from the end |
| ShapeKeyCoords.EffectiveScale | src/mpfb/services/targetservice.py:261-264 | a given scale is used as is; a missing or tiny stored scale becomes 1.0 |
| ShapeKeyCoords.SetShapeKeyCoordsFromDict | src/mpfb/services/targetservice.py:260-282 | a missing basis raises ValueError; otherwise a fresh buffer holds the basis with the scaled offsets added, or the IndexError of a negative index out of range |
| ShapeKeyCoords.Moved | src/mpfb/services/targetservice.py:276-281 | one vertex raises IndexError exactly when its index is below minus the vertex count, leaves the buffer alone when its index is at or past the count, and otherwise keeps the buffer length |
| ShapeKeyCoords.ApplyOffsetsInPlace | src/mpfb/services/targetservice.py:275-281 | the loop over the vertices updates the buffer in place exactly as the specification function says |
| ShapeKeyCoords.ApplyOffsetsSlots | src/mpfb/services/targetservice.py:275-281 | every slot of the result is its basis value plus the scaled coordinates of every listed vertex that lands on it, so unlisted slots keep their basis value |
| ShapeKeyCoords.ApplyOffsetsRaises | src/mpfb/services/targetservice.py:276-281 | the update raises iff some vertex index is below minus the vertex count |
| ShapeKeyCoords.MirrorTable.Load | src/mpfb/services/targetservice.py:359-388 | the table is read once: "from to l" lines go to the left list and "from to r" lines to the right list, other sides and blank lines are skipped, and a malformed line raises |
| ShapeKeyCoords.ReadMirrorText | src/mpfb/services/targetservice.py:374-386 | a mirror file written from rows reads back as the "l" rows and the "r" rows, each in file order |
| ShapeKeyCoords.KeyBlockError | src/mpfb/services/targetservice.py:403 | looking the shape key up fails exactly when the object has no shape keys (AttributeError) or none of that name (KeyError) |
| ShapeKeyCoords.SymmetrizeShapeKey | src/mpfb/services/targetservice.py:391-408 | objects other than the base mesh are rejected unchanged; after the table is loaded an unknown shape key raises AttributeError or KeyError with the coordinates unchanged; otherwise the left or right list is applied pair by pair |
| ShapeKeyCoords.MirrorPairsResult | src/mpfb/services/targetservice.py:405-408 | with sources and targets apart, every target vertex gets its source's coordinates with x negated and every other vertex is unchanged |
| ShapeKeyCoords.MirrorPairsIdempotent | src/mpfb/services/targetservice.py:405-408 | symmetrising twice gives the same coordinates as symmetrising once |
| ShapeKeyStack.GetTargetStack | src/mpfb/services/targetservice.py:411-441 | a missing or non-mesh object raises; otherwise the result is the keys whose lowercased name has no "basis" and no excluded prefix or suffix, in order |
| ShapeKeyStack.StackMembers | src/mpfb/services/targetservice.py:426-439 | a key is in the stack iff it is a key of the object and not excluded |
| ShapeKeyStack.HasTarget | src/mpfb/services/targetservice.py:452-463 | no object or name gives false; otherwise true iff the stack lists the name or, when asked, its encoded form |
| ShapeKeyStack.ListedKeys | src/mpfb/services/targetservice.py:452-463 | listed means some non-basis key carries the name or its encoded form |
| ShapeKeyStack.FirstValue | src/mpfb/services/targetservice.py:471-475 | the value of the first stack entry with the name, 0.0 when there is none |
| ShapeKeyStack.GetTargetValue | src/mpfb/services/targetservice.py:466-475 | no object or name gives 0.0; otherwise the first matching value of the stack |
| ShapeKeyStack.SetTargetValue | src/mpfb/services/targetservice.py:478-493 | no object or name, or no keys, raise; otherwise every key with the name gets the value, and with deletion on and a value below 0.0001 those keys are removed |
| ShapeKeyStack.SetThenGet | src/mpfb/services/targetservice.py:466-493 | after setting a listed target, reading it gives the value set |
| ShapeKeyStack.RemovedReadsZero | src/mpfb/services/targetservice.py:466-493 | after a deleting set of a tiny value the target reads as 0.0 |
| ShapeKeyStack.PruneShapekeys | src/mpfb/services/targetservice.py:921-934 | the first key is kept; every later key that is a target with a value below the cutoff is removed |
| ShapeKeyStack.PrunedMembers | src/mpfb/services/targetservice.py:930-934 | after pruning no later key is prunable, no non-prunable key is lost, and nothing new appears |
| ShapeKeyStack.PruneIdempotent | src/mpfb/services/targetservice.py:921-934 | pruning twice is pruning once |
| MacroTargets.InterpolateMacroComponents | src/mpfb/services/targetservice.py:617-652 | the loop collects each part's components in part order |
| MacroTargets.InterpolatedMembers | src/mpfb/services/targetservice.py:636-645 | a component comes from a part whose range strictly contains the value: its low name with weight 1-pct or its high name with weight pct, empty names omitted |
| MacroTargets.InterpolatedWeights | src/mpfb/services/targetservice.py:636-645 | every component has a non-empty name and a weight strictly between 0 and 1 |
| MacroTargets.CornersMembers | src/mpfb/services/targetservice.py:676-812 | the nested loops visit exactly the combinations taking one component from each list |
| MacroTargets.CalculateTargetStack | src/mpfb/services/targetservice.py:655-815 | the loops produce the race, universal, height, breast and proportions families in that order, each filtered by the cutoff |
| MacroTargets.StackAboveCutoff | src/mpfb/services/targetservice.py:655-815 | every target in the stack has a weight above the cutoff |
| MacroTargets.RaceTargetShape | src/mpfb/services/targetservice.py:673-687 | a race target comes from a race above 0.0001 and a gender other than "universal", weighted by race, gender and age |
| MacroTargets.BreastTargetShape | src/mpfb/services/targetservice.py:746-778 | a breast target is "breast/female-…" for a female corner, weighted without the gender factor, and never a forbidden combination |
| MacroTargets.NoFemaleNoBreast | src/mpfb/services/targetservice.py:744-746 | without a "female" gender component no breast target is produced |
| Mhmat.Get | src/mpfb/entities/material/mhmaterial.py:54 | a key is absent iff no entry has it |
| Mhmat.Put | src/mpfb/entities/material/mhmaterial.py:65 | the key then maps to the value and every other key keeps its value |
| Mhmat.PutNew | src/mpfb/entities/material/mhmaterial.py:65 | a new key goes last, after every existing entry |
| Mhmat.PutExisting | src/mpfb/entities/material/mhmaterial.py:65 | an existing key keeps its slot and only its value changes; every other entry keeps its place |
| Mhmat.KeyOf | src/mpfb/entities/material/mhmaterial.py:22 | a key line starts with ASCII letters followed by whitespace, and the key is those letters |
| Mhmat.KeyOfLine | src/mpfb/entities/material/mhmaterial.py:22 | every single line made of ASCII letters, whitespace and a rest is a key line with those letters as key |
| Mhmat.ShaderConfigLineIgnored | src/mpfb/entities/material/mhmaterial.py:66-69 | a "shader_config" line is not a key line and leaves the settings unchanged |
| Mhmat.ParseLine | src/mpfb/entities/material/mhmaterial.py:21-71 | a line that is not a key line changes nothing, and the only errors are AttributeError, TypeError and IndexError |
| Mhmat.CanonicalKeyStored | src/mpfb/entities/material/mhmaterial.py:27-65 | a key the table knows after alias resolution, in any case, is stored under the table's spelling with the value its key object parses from the line rewritten to start with that spelling (a file key parses relative to the location); a file key before any location is set raises AttributeError |
| Mhmat.UnknownKeyStoredAsNone | src/mpfb/entities/material/mhmaterial.py:31-65 | a key the table does not know is stored with value None |
| Mhmat.TagsAccumulate | src/mpfb/entities/material/mhmaterial.py:53-57 | starting without a tag, successive non-empty tags accumulate as "a, b, …" and no other key changes |
| Mhmat.ShaderParamLitsphere | src/mpfb/entities/material/mhmaterial.py:58-63 | a litsphereTexture parameter "litspheres/NAME.png" stores NAME under "litsphereTexture", and a parameter of any other name changes nothing |
| Mhmat.LitsphereNameOf | src/mpfb/entities/material/mhmaterial.py:60-62 | the litsphere pattern captures NAME from "litspheres/NAME.png" |
| Mhmat.MhMaterial.ParseMaterialLine | src/mpfb/entities/material/mhmaterial.py:21-71 | the settings change as the line rules say, or not at all when the line raises |
| Mhmat.ReadLines | src/mpfb/entities/material/mhmaterial.py:79-85 | no line read is empty, so the `while line` loop reaches the end of the file |
| Mhmat.ReadLinesCoverText | src/mpfb/entities/material/mhmaterial.py:79-85 | the lines read concatenate back to the file text, and each holds no line feed before its end |
| Mhmat.MhMaterial.PopulateFromMhmat | src/mpfb/entities/material/mhmaterial.py:73-86 | the location is set, and the loop hands exactly the lines that are not blank, '#' or '/' lines to the parser, in order, stopping at the first error |
| Mhmat.CommentLinesIgnored | src/mpfb/entities/material/mhmaterial.py:82-84 | a blank or comment line has no effect wherever it stands in the file |
| Mhmat.MhMaterial.Populate | src/mpfb/entities/material/mhmaterial.py:88-96 | with loading asked for and a non-blank "materialFile" the file is read, and a name that is not a string raises TypeError; otherwise every other entry of the info is copied |
| Mhmat.CopiedValues | src/mpfb/entities/material/mhmaterial.py:93-95 | after copying, each key of the info except "materialFile" has the info's value and every other key keeps its old value |
| Mhmat.FirstLoose | src/mpfb/entities/material/mhmaterial.py:111-118 | the case-insensitive scan answers None or a truthy value, and None iff no entry matches loosely with a truthy value |
| Mhmat.FirstLooseIsFirst | src/mpfb/entities/material/mhmaterial.py:113-118 | the scan answers with the first loosely matching truthy entry |
| Mhmat.ValueOf | src/mpfb/entities/material/mhmaterial.py:106-124 | a truthy exact value wins; otherwise the case-insensitive scan when asked, else None, so falsy values count as absent |
| Mhmat.MhMaterial.GetValue | src/mpfb/entities/material/mhmaterial.py:106-124 | the lookup and its loop answer as the lookup's specification says |
| Mhmat.MhMaterial.AsMhmat | src/mpfb/entities/material/mhmaterial.py:126-158 | the writer's loops produce the preamble, one section per key group in table order, the shader heading and the list of unset keys, or the error of a tag that is not a string |
| Mhmat.MhMaterial.TagText | src/mpfb/entities/material/mhmaterial.py:135-137 | the loop writes one "tag" line per comma-separated part, stripped |
| Mhmat.TagsRoundTrip | src/mpfb/entities/material/mhmaterial.py:53-137 | tags read from separate lines and accumulated are written back as one "tag NAME" line each, in reading order |
| Mhmat.UnsetListed | src/mpfb/entities/material/mhmaterial.py:152-156 | the trailing section lists a name iff a table key has it and it is missing or None |
| GroupWrapper.ValidateTree | src/mpfb/entities/nodemodel/v2/composites/abstractgroupwrapper.py:50-80 | a missing definition raises ValueError and a missing tree the KeyError of the `node_groups` lookup; with fail_hard a missing node raises ValueError; otherwise the answer is whether the two name sets are equal |
| GroupWrapper.SameNamesValidate | src/mpfb/entities/nodemodel/v2/composites/abstractgroupwrapper.py:66-70 | a tree with the same node names as its definition validates |
| GroupWrapper.MissingNodeFails | src/mpfb/entities/nodemodel/v2/composites/abstractgroupwrapper.py:72-80 | a defined node missing from the tree raises with fail_hard and gives false without it |
| GroupWrapper.SuperfluousNodeOnly | src/mpfb/entities/nodemodel/v2/composites/abstractgroupwrapper.py:72-80 | extra nodes alone give false and never raise |
| GroupWrapper.CompositeColorChoice | src/mpfb/entities/nodemodel/v2/composites/abstractgroupwrapper.py:99-134 | a composite is purple when it is a texture group, else olive when it is a constant group, else grey-blue, with 1.0 appended when the node's colour has more channels |
| GroupWrapper.TextureOverridesConstant | src/mpfb/entities/nodemodel/v2/composites/abstractgroupwrapper.py:128-131 | an "MpfbSkin…Info" group is both a constant and a texture group and is coloured purple |
| GroupWrapper.ColorNode | src/mpfb/entities/nodemodel/v2/composites/abstractgroupwrapper.py:116-135 | an unknown class raises, a non-composite node keeps its colour, and a composite gets the custom colour flag and its composite colour |
| GroupWrapper.CheckedSocketType | src/mpfb/entities/nodemodel/v2/composites/abstractgroupwrapper.py:9-144 | "NodeSocketFloatFactor" becomes "NodeSocketFloat", other whitelisted types pass, the rest raise; an accepted type is always whitelisted |
| GroupWrapper.GroupTree.AddInputSocket | src/mpfb/entities/nodemodel/v2/composites/abstractgroupwrapper.py:137-155 | a rejected type raises and adds nothing; otherwise one socket with the checked type and default is appended |
| GroupWrapper.GroupTree.AddOutputSocket | src/mpfb/entities/nodemodel/v2/composites/abstractgroupwrapper.py:157-170 | a rejected type raises and adds nothing; otherwise one socket with the checked type and default is appended |
| GroupWrapper.LastMatch | src/mpfb/entities/nodemodel/v2/composites/abstractgroupwrapper.py:178-184 | the loop without `break` finds the last matching socket, and None iff none matches |
| GroupWrapper.ResolvedChoice | src/mpfb/entities/nodemodel/v2/composites/abstractgroupwrapper.py:178-198 | a socket is found iff some identifier or name matches; an identifier match is preferred, and among several matches the last wins |
| GroupWrapper.FindSocket | src/mpfb/entities/nodemodel/v2/composites/abstractgroupwrapper.py:178-184 | the two loops compute the identifier-then-name resolution |
| GroupWrapper.GroupTree.CreateLink | src/mpfb/entities/nodemodel/v2/composites/abstractgroupwrapper.py:172-207 | the link joins the resolved sockets and is appended to the tree's links; an unresolved socket raises and adds nothing |
| GroupWrapper.LinkToSubsurfaceColor | src/mpfb/entities/nodemodel/v2/composites/abstractgroupwrapper.py:189-191 | linking to "Subsurface Color" is linking to "Base Color" |
| MaterialService.FirstMarker | src/mpfb/services/materialservice.py:78-88 | the scan answers the kind of the first group node carrying a marker, checking "Pore detail", "IrisSection4Color", then "NavelCenterOverride", and None iff no node carries one |
| MaterialService.IdentifyMaterial | src/mpfb/services/materialservice.py:69-101 | the answer is one of the seven material kinds, and "empty" exactly when there is no material or its tree has no nodes |
| MaterialService.IdentifyMaterialUnknown | src/mpfb/services/materialservice.py:78-101 | a non-empty tree is "unknown" exactly when no group node is marked and it has neither a "diffuseIntensity" nor a "Principled BSDF" node |
| MaterialService.IdentifyMaterialOrder | src/mpfb/services/materialservice.py:78-101 | a procedural kind iff the first marked node says so; makeskin iff no marker and a diffuseIntensity node; gameengine iff neither and a Principled BSDF |
| MaterialService.PoreDetailFirst | src/mpfb/services/materialservice.py:80-84 | a first group node with "Pore detail" makes the material enhanced skin whatever follows |
| MaterialService.GetNumberOfInkLayers | src/mpfb/services/materialservice.py:749-767 | the loop computes the ink-layer count: an error unless makeskin or layered skin, else the largest layer number of the "inkLayer…" image nodes, 0 when none |
| MaterialService.MaxLayerOfWellNamed | src/mpfb/services/materialservice.py:758-767 | over "inkLayer<N>tex" nodes the count is the maximum N: at least every N, and 0 or one of them |
| MaterialService.LayerTextOf | src/mpfb/services/materialservice.py:763 | the number read from "inkLayer<N>tex" is N |
| MaterialService.NextInkLayerId | src/mpfb/services/materialservice.py:713-746 | other material kinds are rejected; otherwise the new layer id is the layer count plus one |
| MaterialService.NextIdIsFresh | src/mpfb/services/materialservice.py:726-746 | the new layer id is above every existing layer number |
| MaterialService.InkLayerInfo | src/mpfb/services/materialservice.py:770-798 | a missing texture or UV node raises; a UV map name containing "UV" is reported as "" |
| MaterialService.InkLayerUvName | src/mpfb/services/materialservice.py:788-794 | the reported UV name is "" when the UV node's map contains "UV" and the map name otherwise |
| MaterialService.AsBlendPath | src/mpfb/services/materialservice.py:280-289 | fewer than two '/' is an error; otherwise the path splits at its last two '/' into three parts, each stripped |
| MaterialService.AsBlendPathOf | src/mpfb/services/materialservice.py:288 | "blend/dir/asset" with '/'-free dir and asset yields the three parts stripped |
| MaterialService.DiffuseColorsOpaque | src/mpfb/services/materialservice.py:899-939 | every colour of the role table is opaque with channels in [0, 1] |
| MaterialService.DiffuseColorRoles | src/mpfb/services/materialservice.py:899-939 | the table has exactly the twelve roles: the four skin-like ones, the five body-part ones, eyes, teeth and clothes |
| MaterialService.DiffuseColorShared | src/mpfb/services/materialservice.py:899-939 | skin-like roles share the skin colour and body-part roles share one colour |
| MaterialService.DiffuseColorOwn | src/mpfb/services/materialservice.py:899-939 | eyes, teeth and clothes have the colours of their own |

## Left out

- File and archive I/O: target search and gzip reading, the mirror file, the macro configuration JSON and opening `.mhmat` files. Their text or parsed content is a parameter instead.
- Blender host operations: creating, baking and removing shape keys, `bake_targets`, `reapply_macro_details`, node-tree creation, `get_wrapper`'s module import and socket creation in Blender. Lists in the model stand in for the host's collections.
- The key table of MakeHuman materials (`MHMAT_NAME_TO_KEY`, `MHMAT_KEY_GROUPS`, `parse_alias`) and the key objects' parsing and printing live in files that are not part of this model. They are the `KeyTable` parameter, with the key objects' functions left uninterpreted.
- Logging and profiling calls are left out; they have no effect on results.
- TargetFile.ShapeKeyInfoAsTargetString: coordinates are given as integer thousandths, which is exactly what the writer's three-decimal formatting can represent. Rounding arbitrary floats to three decimals is not modelled, so the round trip is stated for those values only.
- Numbers.ParseReal: `float()` is modelled for plain decimal notation (sign, digits, optional point). Exponents, "inf"/"nan" and underscores are treated as errors.
- MacroTargets.Interpolated: weights are exact reals; the source's `round(…, 4)` of the low and high weights is not modelled. With rounding, a value very close to a range end gives a weight of 0.0 or 1.0 (pct = 0.00001 gives a high weight of 0.0), and the source still emits that component. MacroTargets.InterpolatedWeights states "strictly between 0 and 1" for the exact weights only.
- Numbers.ParseInt: `int()` is modelled for ASCII decimal digits with optional sign and surrounding whitespace. Underscores between digits ("1_0") and non-ASCII decimal digits, which Python accepts, are treated as errors. This affects the target-file index, the mirror table and ink-layer numbers.
- Default arguments: every parameter the source gives a default (`scale_factor=None`, `fail_hard=False`, `encode_name=None`, `macrodetail=False`, `copy_left_to_right=True`, `cutoff=0.0001` and the like) is an explicit parameter of the model. The default values are not built in, so callers pass them.
- RewriteEffect: for a line holding several "neg|pos" terms, only the weight is stated. The first matching term takes the word the sign picks; every later one then sees a non-negative weight and takes pos. RewriteOne states the word for lines holding exactly one term.
- Floating-point arithmetic in general is modelled by exact reals: the scaled coordinate sums, the products of macro weights and the interpolation.
- ShapeKeyStack.PruneShapekeys: removing keys from Blender's collection while iterating over it is modelled as a filter over a sequence. How Blender's iterator behaves after a removal is not modelled.
- ShapeKeyStack.SetTargetValue: the same applies to removals made while iterating.
- Mhmat.AddTag: appending a string to a stored tag that is a list would extend the list by characters in Python. The model treats every non-string combination as a TypeError.
- Mhmat.MhmatText: `lit_sphere` and `shader_config` are never filled in this file, so the shader section holds only its heading.
- Text.Lower: case mapping is ASCII only; Unicode case folding and normalisation are not modelled.
- MaterialService.InkLayerInfo: `get_material` and the image's Blender name are represented by the fields of the node. An image node without an image raises AttributeError in the model.
- GroupWrapper.GroupTree.AddInputSocket: `hasattr(socket, "min_value")` depends on the Blender socket class. It is the `ranged` parameter.
- The context files (UI panels and operators, other services) are not part of this model.

## Findings

| source | as written | input that shows it | evidently intended | confidence | as-written member | corrected member |
|---|---|---|---|---|---|---|
| src/mpfb/services/targetservice.py:126-127 | `mhm_line.replace("modifier ", "")` discards its result, so the "modifier " prefix stays on the line | "modifier breast/BreastSize 0.5" splits into "modifier" and "breast/BreastSize 0.5", and `float("breast/BreastSize 0.5")` raises ValueError | the prefix is removed before the line is split into name and weight | not executed | TargetNames.ModifierLineRejected | TargetNames.ModifierLineTranslated |
