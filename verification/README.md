# Verified model of MorphoDiTa

MorphoDiTa compiles a raw morphological dictionary into packed bytes and answers queries from them, tags
sentences with a Viterbi decoder over incrementally computed scores, keeps a forest of derivations, and splits
text into sentences and tokens. This project models these parts of the program in Dafny and proves what they
are meant to do. `dafny verify dfyconfig.toml` checks everything.

Code that changes things step by step is modelled by classes and methods with loops, each proved against a
specification function; what the specification means is proved by lemmas. The modules whose names end in `Laws`,
`StoredFormats`, and the lemmas whose names end in `Means` say what the specification functions are without them: in
terms of the rows, weights, senses, forms, characters and bytes themselves.

| part | modules |
|---|---|
| Tagging | `ViterbiSpec`, `ViterbiStates`, `ViterbiTable`, `ViterbiOptimality`, `ViterbiResult`, `Viterbi` (decoder), `TaggerLattice`, `FeatureTemplates`, `FeatureSequences` (cached scores), `Vli` (keys), `FeatureOptimizer`, `FrozenTagger`, `LazyAveraging` (training); `FeatureLaws`, `DecodingLaws` |
| Maps | `FnvHash`, `PersistentMap`, `MapFile` (saving and loading) |
| Dictionary | `Trie`, `ClassFactoring`, `EditScript`, `DictionaryCodec`, `SuffixTable`, `DictionaryFile`, `DictionaryCompiler` (encoder); `DictionaryEntries`, `DictionaryLoader`, `DictionaryAnswers`, `DictionaryForms`, `MorphoDictionary` (loader and queries); `DictionaryEndToEnd`; `TrieLaws`, `DictionaryLaws` |
| Derivations | `DerivationForest`, `DerivatorCodec`, `DerivatorEncoder`, `DerivatorLayout`, `DerivatorDictionary`, `DerivationEndToEnd`, `DerivationFormatter`; `DerivationLaws` |
| Tokenizer | `GruTokenizer` |
| Guessers | `PrefixMasks`, `StatisticalGuesser` |
| Formats | `StoredFormats` (what is written, byte by byte) |
| Helpers | `Bytes`, `Words`, `Sequences`, `Arithmetic` |

## Main results

- **Decoding.** The decoder keeps no table of states: two partial paths share a state when the common prefix of
  successive windows is long enough. `Viterbi.Decoder.Tag` proves, for every order from 2 and every longer
  window, that the flat vector of nodes is nevertheless the table of states, and that the tags written are those
  of its best path. `ViterbiResult.TaggingIsOptimal` and `DecodingLaws.TaggingMaximises` say what this means where
  decoding is exact.
- **Scores.** `FeatureSequences.Cache.ScoreWindow` proves that patching a running total always gives the full
  score; `FeatureLaws.KeyIs` and `FeatureLaws.WeightRaised` say which word and tag each value comes from and that
  exactly the weights stored under the keys of a window are added. `FeatureOptimizer.Optimize` proves that
  renumbering features and rewriting keys changes no weight, and `FrozenTagger.FrozenDecodesAlike` that it changes no
  decision of a tagger that scores by these weights. They are the averaged ones; during training the program decodes
  by the latest weights instead (`src/tagger/training_maps.h:47-51`).
- **Dictionary.** `DictionaryEndToEnd.Publish` compiles, encodes and loads a raw dictionary, and fails exactly when
  something does not fit in its field. `DictionaryEndToEnd.AskAnalyses` and `DictionaryEndToEnd.AskForms` then
  answer what the raw dictionary says, as often as it says it, and `DictionaryForms.GenerateAnalyzeConverse` shows
  that analysis and generation are converse.
- **Derivations.** The encoder fails exactly on cycles (or overlong data), the three-pass loader links every edge
  at both ends although it counts children in the slot of the last one, the answers are those of the chosen
  parents (`DerivationEndToEnd.AskParent`, `DerivationEndToEnd.AskChildren`), and the printed tree holds every
  lemma once and can be read back.
- **Tokenizer.** Whatever the network says, the tokens cover every character but spaces exactly once
  (`GruTokenizer.Tokenizer.TokenizeAll`), and a ghost log of the steps taken, window by window in turn, each with what
  the network says there, shows that tokens and sentences end where the network first says so.

## Where the code does not do what it is meant to

- A dictionary in which no class has the empty suffix answers nothing. The closure of keys under suffixes never
  adds the empty suffix (`src/morpho/persistent_unordered_map_encoder.h:36-38`), and looking up suffixes stops at
  the first that is missing (`src/morpho/morpho_dictionary.h:161-167`). `DictionaryEndToEnd.EndlessCompiled` and
  `DictionaryEndToEnd.EndlessIsWrong` are an example; `DictionaryEndToEnd.RightExactlyWhen` and
  `DictionaryEndToEnd.AllRightExactlyWhen` say exactly when answers are right, and `DictionaryLaws.EmptySuffixMeans`
  when the empty suffix is stored.
- A map stores an empty key with an empty payload in no bytes, and then does not find it
  (`src/morpho/persistent_unordered_map.h:119-122`); `FnvHash.EmptyEntryLost` is such a
  map, and `FnvHash.Hash.At` finds a key if and only if some entry with it takes any bytes. No caller
  has empty payloads.
- The count of nodes (`src/tagger/viterbi.h:64`) is wrong for order 1, which `src/tagger/tagger_ids.h:40-64` never
  asks for: `Viterbi.OrderOneExample`, and `Viterbi.OrderOneCount` for when it is right. Decoding is modelled from
  order 2 on.
- A full window of the tokenizer is cut before a step that splits, not after it
  (`src/tokenizer/gru_tokenizer.cpp:99-105`), so that the next window may begin inside a token:
  `GruTokenizer.CutInsideToken`, and `GruTokenizer.CutAfterSplit` for when it does not. This changes what the network
  sees, not what the tokens cover.

## Model

| member | source | states |
|---|---|---|
| `ViterbiResult.TaggingIsOptimal` | src/tagger/viterbi.h:57-121 | when the window is as long as the order (at least 2) and no template has a dynamic element, the decoded tags have the greatest total score over the whole product of analyses, counting also the positions whose score is never computed, and among ties they are the smallest read from the last word to the first |
| `DecodingLaws.TaggingMaximises` | src/tagger/viterbi.h:57-121 | in the same case, adding up the scores word by word: those of the decoded tags come to at least as much as those of any other choice of analyses; and to more, unless the decoded choice has the smaller analysis at the last word at which the two differ |
| `DecodingLaws.NothingDominates` | src/tagger/viterbi.h:95-117 | in the same case, no choice of analyses scores at least as well as the decoded one at every word and better at some word |
| `DecodingLaws.TotalIs` | src/tagger/viterbi.h:95-96 | the score of a path is what adding up its positions one after the other comes to |
| `DecodingLaws.StepIs` | src/tagger/viterbi.h:82-96 | a position contributes the score of its tag and those before it, latest first and -1 before the sentence, with the dynamic features computed tag by tag from the first word on |
| `DecodingLaws.NotAfterMeans` | src/tagger/viterbi.h:98-117 | the order in which ties are decided: the smaller analysis at the last word at which two paths differ |
| `ViterbiResult.DecodedIsOptimal` | src/tagger/viterbi.h:113-121 | the same for any lattice whose step scores depend only on the window: the first best of the kept paths is preferred to every path |
| `ViterbiOptimality.BestIsOptimal` | src/tagger/viterbi.h:98-107 | the path kept for a state (keep the first best while predecessors are enumerated) is preferred to every path that ends in the state |
| `ViterbiOptimality.SkippingIsConstant` | src/tagger/viterbi.h:94-96 | leaving out the score where there is one node and one tag takes the same amount off every path of a length, so no comparison changes |
| `ViterbiTable.SameTagsMeansSameState` | src/tagger/viterbi.h:82-102 | the number of tags by which successive windows agree reaches the order less one exactly when both pairs lead to the same state; the enumeration order of predecessors is what makes this so |
| `ViterbiTable.Counts` | src/tagger/viterbi.h:61-66 | states before a word are its rows times the size of a group of predecessors, and states after it are its tags times its rows |
| `ViterbiTable.PartialComplete` | src/tagger/viterbi.h:98-107 | merging along one group of consecutive predecessors ends with the best path of the state |
| `ViterbiStates.TupleOrder` | src/tagger/viterbi.h:82-107 | states are enumerated in lexicographic order of their most recent tags |
| `ViterbiStates.TupleComplete` | src/tagger/viterbi.h:82-107 | every tuple of recent tags is some state of the enumeration |
| `Viterbi.CountNodes` | src/tagger/viterbi.h:60-67 | counting fails exactly when some word has no analysis; otherwise it gives what the recurrence says, which from order 2 on is the total number of states of all columns |
| `Viterbi.CountedIsRight` | src/tagger/viterbi.h:62-66 | from order 2 on the recurrence counts the states after each word |
| `Viterbi.OrderOneCount` | src/tagger/viterbi.h:64 | for order 1 the recurrence is right if and only if every word has a single analysis |
| `Viterbi.OrderOneExample` | src/tagger/viterbi.h:64 | one word with two analyses: for order 1 no node is counted, where one is needed |
| `Viterbi.SlideWindow` | src/tagger/viterbi.h:82-91 | following back pointers, the window comes to hold the tags of the new path, and the returned number is the length of the prefix it shares with the previous window |
| `Viterbi.Decoder.ScorePair` | src/tagger/viterbi.h:86-99 | the score of a pair is that of its whole path, its dynamic features are the fold along the path, and it merges exactly when it leads to the state of the pair before |
| `Viterbi.Decoder.FillColumn` | src/tagger/viterbi.h:79-111 | a column gets exactly one node for each tuple of recent tags, in order, each with the score and dynamic features of its path, and as many as were counted |
| `Viterbi.Decoder.TraceBack` | src/tagger/viterbi.h:119-120 | following back pointers writes out exactly the path of the chosen node and changes no other tag |
| `Viterbi.Decoder.Tag` | src/tagger/viterbi.h:57-121 | for every order of at least 2, every window and every model, the tags written are those of the best kept path of the lattice; without words or without analyses nothing is written |
| `TaggerLattice.LatticeIsExact` | src/tagger/feature_sequences.h:169-220 | without dynamic elements, and with a window as long as the order, step scores depend only on the tags in the window |
| `FeatureSequences.KeyDependsOnRange` | src/tagger/feature_sequences_encoder.h:53-57 | the key of a template does not change while the leading tags of the window up to its range stay the same |
| `FeatureSequences.Cache.InitializeSentence` | src/tagger/feature_sequences.h:142-162 | a new sentence clears every stored key and score, which makes the cache coherent whatever the weights are |
| `FeatureSequences.Cache.ComputeKey` | src/tagger/feature_sequences.h:181-206 | the key buffer holds the codes of all feature values, or nothing if one of them is unknown |
| `FeatureSequences.Cache.ScoreWindow` | src/tagger/feature_sequences.h:169-220 | the patched total equals the full recomputation over all templates for the window, although only templates whose range exceeds the unchanged tags are looked at again, and the cache reflects the window afterwards; the rows of `FeatureLaws` say what the full recomputation is |
| `FeatureSequences.Cache.FeatureKeys` | src/tagger/feature_sequences.h:222-229 | the keys returned are those of the window for every template |
| `FeatureLaws.KeyIs` | src/tagger/feature_sequences.h:181-206 | a key is the code of its values in order, and empty if one of them is 0: a form feature with offset k is that of word i + k, or 1 outside of the sentence; a tag feature is that of the tag so many places back in the window, or 1 before the sentence; a dynamic feature is the one given |
| `FeatureLaws.OtherForms` | src/tagger/feature_sequences.h:187-189 | changing the form features of word j changes no key at word i whose form offsets all differ from j - i |
| `FeatureLaws.OtherTags` | src/tagger/feature_sequences.h:190-192 | changing the features of the analyses of word j changes no key at word i whose tag offsets all differ from j - i, and nor do other tags where no tag offset leads |
| `FeatureLaws.OtherDynamic` | src/tagger/feature_sequences.h:193-195 | other dynamic features change no key whose elements do not read them |
| `FeatureLaws.KeyTellsForm` | src/tagger/feature_sequences.h:181-206 | a key that is not empty becomes another one when a form feature it is made of changes |
| `FeatureLaws.NoWeights` | src/tagger/training_maps.h:47-51 | without weights every window scores zero |
| `FeatureLaws.WeightRaised` | src/tagger/feature_sequences.h:205-219 | raising the weight of one key of a template by d, from zero if it was not stored, raises the score of a window by exactly d if the key is the code of the values of the window for that template, none of them unknown, and leaves it as it is otherwise |
| `FeatureTemplates.ParseLine` | src/tagger/feature_sequences_encoder.h:34-59 | a line is accepted exactly when its elements are known and their offsets allowed, and then has the range of its elements |
| `FeatureTemplates.LineMeans` | src/tagger/feature_sequences_encoder.h:31-58 | which lines these are: with known features, offset zero for dynamic ones and those for the current word only, offsets inside the window and not positive for tags, and no feature for the current word only beside a dynamic one or one of an earlier tag; the elements are those named, in order, with the offsets given |
| `FeatureTemplates.RangeMeans` | src/tagger/feature_sequences_encoder.h:53-54 | the range is the greatest of 1, of one more than the distances of its tags, and with a dynamic feature of one more than the window |
| `FeatureTemplates.Parse` | src/tagger/feature_sequences_encoder.h:25-63 | parsing succeeds exactly when all lines do, and gives their templates in stable order of falling range |
| `FeatureTemplates.StableSortSorts` | src/tagger/feature_sequences_encoder.h:61 | the templates come out in falling range, none is lost, and those of one range keep their order |
| `FeatureTemplates.OfRangeMeans` | src/tagger/feature_sequences_encoder.h:61 | the templates of one range: all of them where all have it, none where none has, and one part of the list after the other |
| `FeatureTemplates.ParsedModelIsValid` | src/tagger/feature_sequences_encoder.h:25-63 | parsed templates meet everything that scoring relies on: ranges cover the elements, offsets stay in the window, and ranges fall |
| `Vli.Encode` | src/tagger/vli.h:33-40 | the bytes written are the code of the value and nothing before them changes |
| `StoredFormats.EncodingBytes` | src/tagger/vli.h:33-40 | the code of every number, byte by byte: seven bits in each, the highest first, and 0x80 added to all but the last |
| `Vli.Decode` | src/tagger/vli.h:42-48 | reading stops after the first byte without the high bit and gives the number the bytes stand for |
| `Vli.EncodingDecodes` | src/tagger/vli.h:28-48 | the bytes of every 32-bit number read back as that number, and there are at most five |
| `Vli.PrefixFree` | src/tagger/vli.h:33-48 | two codes followed by anything agree only if they are the same code |
| `Vli.EncodeAllInjective` | src/tagger/vli.h:33-48 | concatenated codes tell the numbers apart |
| `Vli.DecodeAll` | src/tagger/feature_sequences_optimizer.h:61-63 | reading a key code by code gives back exactly the numbers it was made from |
| `FeatureOptimizer.CountIds` | src/tagger/feature_sequences_optimizer.h:65-70 | each counter grows by the number of times its number occurs in the key |
| `FeatureOptimizer.CountKeys` | src/tagger/feature_sequences_optimizer.h:58-71 | each counter grows by the number of places of its number in the keys of nonzero weight |
| `FeatureOptimizer.BuildTable` | src/tagger/feature_sequences_optimizer.h:73-88 | whatever order sorting leaves ties in, the renumbering keeps unknown and empty, is injective on the kept numbers, drops exactly the numbers that are not counted, and gives those counted more often smaller numbers |
| `FeatureOptimizer.MoreFrequentFirst` | src/tagger/feature_sequences_optimizer.h:79-87 | a number counted more often gets a smaller number |
| `FeatureOptimizer.CountedIsKept` | src/tagger/feature_sequences_optimizer.h:55-88 | no number in a key of nonzero weight is dropped, which is what the assertion of the program relies on |
| `FeatureOptimizer.OptimizeIds` | src/tagger/feature_sequences_optimizer.h:90-101 | looking up a feature in the new map is renumbering what the old map gives |
| `FeatureOptimizer.RemapKeys` | src/tagger/feature_sequences_optimizer.h:103-128 | the new map holds exactly the renumbered keys of nonzero weight, with their weights |
| `FeatureOptimizer.RenumberedWeight` | src/tagger/feature_sequences_optimizer.h:103-128 | for every vector of values, known or not, looking up its renumbered key gives the original weight, zero if absent |
| `FeatureOptimizer.Optimize` | src/tagger/feature_sequences_optimizer.h:38-134 | optimization as a whole: features map to renumbered values, every renumbered key has its original weight in every template, a number is dropped exactly if no key of nonzero weight uses it, and one used more often gets a smaller number |
| `FeatureLaws.WeightKept` | src/tagger/feature_sequences_optimizer.h:103-128 | said of the maps themselves: the key made of known values has the weight in the old map that the key made of their new numbers has in the new one, and none if one of these is unknown |
| `FeatureLaws.FeatureKept` | src/tagger/feature_sequences_optimizer.h:93-96 | the strings that a new elementary map keeps are those whose number is kept, with the new number |
| `FrozenTagger.FrozenDecodesAlike` | src/tagger/feature_sequences_optimizer.h:38-134 | a tagger over renumbered features scores every tag sequence like one with the same weights before renumbering, and decodes every sentence to the same tags, dynamic features included |
| `LazyAveraging.Trainer.CreateFeature` | src/tagger/perceptron_tagger_trainer.h:71-87 | a feature created ahead has weight zero and leaves all other weights |
| `LazyAveraging.Trainer.Update` | src/tagger/perceptron_tagger_trainer.h:120-139 | one update moves the weight of a key by one, brings its sum up to date, and creates the key unless features are pruned |
| `LazyAveraging.Trainer.UpdateSentence` | src/tagger/perceptron_tagger_trainer.h:103-144 | after a sentence each row has moved by the differing keys of decoded and gold tags, position by position, and the lazy sums still stand for the naive ones |
| `LazyAveraging.SentenceMoves` | src/tagger/perceptron_tagger_trainer.h:103-144 | what one sentence does to one weight: it grows by the number of words whose gold tag has the key and shrinks by the number of those whose decoded tag has it, unless features are pruned and the key is not stored; and which keys are stored afterwards |
| `LazyAveraging.Trainer.TrainIteration` | src/tagger/perceptron_tagger_trainer.h:89-151 | the weights move sentence by sentence as the keys say, bringing the sums up to date changes no weight, and then the sum of every feature equals the plain sum, over all sentences of all iterations so far, of its weight after the sentence, also for features created midway |
| `LazyAveraging.SumIs` | src/tagger/perceptron_tagger_trainer.h:146-151 | the plain sum is what adding up the weight after each sentence comes to |
| `LazyAveraging.Trainer.Finish` | src/tagger/perceptron_tagger_trainer.h:146-151 | every sum becomes exact and no weight changes |
| `FnvHash.ShortKeysInjective` | src/morpho/persistent_unordered_map.h:93-96 | keys of at most two bytes share an index only if equal, so their buckets need no comparison |
| `StoredFormats.BucketsMean` | src/morpho/persistent_unordered_map.h:75-81 | the number of buckets is the least power of two that is not below the number asked for |
| `StoredFormats.HashOfByte` | src/morpho/persistent_unordered_map.h:98-101 | the hash of one byte, and that bytes from 0x80 on are taken as negative |
| `FnvHash.PositionInBucket` | src/morpho/persistent_unordered_map.h:212-221 | every entry lies inside the bucket of its key |
| `FnvHash.PositionsDisjoint` | src/morpho/persistent_unordered_map.h:199-221 | no two entries overlap |
| `FnvHash.OffsetTotal` | src/morpho/persistent_unordered_map.h:204-210 | the prefix sums end at the total size |
| `FnvHash.BucketIndicesExact` | src/morpho/persistent_unordered_map.h:155-164 | the entries of a bucket, in order of insertion, are exactly those whose keys have its index |
| `FnvHash.AllIndicesComplete` | src/morpho/persistent_unordered_map.h:167-180 | walking all buckets meets every entry |
| `FnvHash.AllIndicesDistinct` | src/morpho/persistent_unordered_map.h:167-180 | and meets none twice |
| `FnvHash.Hash.Add` | src/morpho/persistent_unordered_map.h:199-202 | one more entry is announced |
| `FnvHash.Hash.DoneAdding` | src/morpho/persistent_unordered_map.h:204-210 | the announced sizes become offsets, and nothing is filled yet |
| `FnvHash.Hash.Fill` | src/morpho/persistent_unordered_map.h:212-221 | the key is stored at the next free place of its bucket, all earlier entries keep their bytes, and the offset after the key is returned |
| `FnvHash.Hash.DoneFilling` | src/morpho/persistent_unordered_map.h:223-227 | shifting the ends by one gives the starts again |
| `FnvHash.Hash.At` | src/morpho/persistent_unordered_map.h:111-130 | a key is found exactly if an entry with it is stored that takes any bytes, at its first entry, also where short keys are not compared |
| `FnvHash.Hash.EmptyEntries` | src/morpho/persistent_unordered_map.h:117-127 | a hash without bytes holds nothing but entries with empty key and empty payload, and one with bytes none |
| `FnvHash.EmptyEntryLost` | src/morpho/persistent_unordered_map.h:119-122 | one entry with empty key and empty payload is stored and not found |
| `FnvHash.Hash.Iter` | src/morpho/persistent_unordered_map.h:151-165 | visits exactly the entries of the bucket, in order, at their places, if the hash has any bytes |
| `FnvHash.Hash.IterAll` | src/morpho/persistent_unordered_map.h:167-180 | visits every entry exactly once, bucket by bucket, if the hash has any bytes |
| `PersistentMap.Map.Resize` | src/morpho/persistent_unordered_map.h:192-197 | adds an empty hash for the next key length, with a bucket for every key if the length is at most two |
| `PersistentMap.Map.Add` | src/morpho/persistent_unordered_map.h:199-202 | announces an entry in the hash of its length; too long keys are ignored |
| `PersistentMap.Map.DoneAdding` | src/morpho/persistent_unordered_map.h:204-210 | fixes the layout of every hash |
| `PersistentMap.Map.Fill` | src/morpho/persistent_unordered_map.h:212-221 | stores the next announced entry and returns its place, or nothing if the key is too long |
| `PersistentMap.Map.DoneFilling` | src/morpho/persistent_unordered_map.h:223-227 | the map holds exactly the filled entries |
| `PersistentMap.Map.PlacedAt` | src/morpho/persistent_unordered_map.h:186-221 | a place computed while filling still finds the entry when the map is done, although entries around it change |
| `PersistentMap.Map.Construct` | src/morpho/persistent_unordered_map_encoder.h:48-75 | a map built from items holds exactly them, with a hash for every length up to the longest and the buckets that the load factor asks for |
| `PersistentMap.Map.DataSize` | src/morpho/persistent_unordered_map.h:204-210 | a hash is as large as its keys and payloads together |
| `PersistentMap.Map.At` | src/morpho/persistent_unordered_map.h:111-130 | looks up a key of any length: found exactly if some item with it takes any bytes, and the payload of that item follows |
| `PersistentMap.Map.Iter` | src/morpho/persistent_unordered_map.h:151-165 | among the items visited, those with the key are exactly the items with the key, in order, unless these take no bytes |
| `PersistentMap.Map.IterAll` | src/morpho/persistent_unordered_map.h:167-180 | visits every item of the map that takes any bytes exactly once |
| `PersistentMap.Map.Rewrite` | src/derivator/derivator_dictionary.cpp:133-144 | overwriting bytes inside one payload of a finished map changes that item and no other |
| `MapFile.Save` | src/morpho/persistent_unordered_map_encoder.h:77-88 | saving fails exactly when the number of lengths, of bucket starts or of bytes does not fit, and otherwise writes the starts and bytes of every hash |
| `MapFile.LoadHash` | src/morpho/persistent_unordered_map.h:74-83 | a hash read back has the starts, the bytes and hence the entries of the one saved |
| `MapFile.Load` | src/morpho/persistent_unordered_map.h:229-236 | a map read back holds exactly the items of the one saved, whatever follows in the stream |
| `StoredFormats.MapBytes` | src/morpho/persistent_unordered_map_encoder.h:77-90 | what is saved of a map with one hash: its number of starts, these, the number of bytes, and these |
| `StoredFormats.NumberBytes` | src/utils/binary_encoder.h:53-61 | fixed numbers come with the lowest byte first |
| `PersistentMap.Enlarge` | src/morpho/persistent_unordered_map_encoder.h:24-42 | adds exactly the proper nonempty prefixes or suffixes of keys, with the default payload, and never the empty key |
| `PersistentMap.EnlargedSuffixes` | src/morpho/persistent_unordered_map_encoder.h:36-38 | the keys are closed under nonempty suffixes |
| `PersistentMap.EnlargedPrefixes` | src/morpho/persistent_unordered_map_encoder.h:32-34 | the keys are closed under nonempty prefixes |
| `Trie.AddAllPaths` | src/morpho/morpho_dictionary_encoder.h:42-58 | the paths of the trie are exactly the prefixes of the forms, and depths cover what hangs below |
| `Trie.CandidateIsUsable` | src/morpho/morpho_dictionary_encoder.h:60-76 | the chosen prefix starts some form, and leaves fewer letters than the limit to every form it starts |
| `TrieLaws.CandidateIsLongest` | src/morpho/morpho_dictionary_encoder.h:60-76 | of the prefixes of forms after which all forms end within the limit, the chosen one ends the longest chain at which the forms do not branch; said of the forms alone |
| `ClassFactoring.SortUniqueOk` | src/morpho/morpho_dictionary_encoder.h:147-154 | the forms come out sorted, and exactly the given ones |
| `ClassFactoring.TextLeqMeans` | src/morpho/morpho_dictionary_encoder.h:149-150 | the order of texts: a prefix comes first, and otherwise the first byte that differs decides |
| `ClassFactoring.FindClass` | src/morpho/morpho_dictionary_encoder.h:163-178 | the forms of a class are a nonempty run that shares its common prefix; the internal error cannot happen |
| `ClassFactoring.TakeClass` | src/morpho/morpho_dictionary_encoder.h:161-203 | one class and the rest together are exactly the forms, and the class keeps to the suffix limit |
| `DictionaryLaws.SplitMeans` | src/morpho/morpho_dictionary_encoder.h:163-203 | the class has all forms that start with the chosen prefix and no others; its root is all that they share, since some ending is empty or two start differently; all other forms are left |
| `ClassFactoring.ClassStringInjective` | src/morpho/morpho_dictionary_encoder.h:180-188 | forms and tags without tabs: equal class strings mean equal lists of suffixes and tags |
| `ClassFactoring.Tables.TagId` | src/morpho/morpho_dictionary_encoder.h:191-193 | a tag keeps its number, and a new tag gets the next one |
| `ClassFactoring.Tables.AddClass` | src/morpho/morpho_dictionary_encoder.h:187-197 | a class gets the number of the class with the same endings, or a new number if there is none, and the suffix table says what its endings are |
| `ClassFactoring.FactorLemma` | src/morpho/morpho_dictionary_encoder.h:160-204 | factoring ends; the roots and classes of a lemma rebuild exactly its set of forms with tags, suffixes are shorter than the limit if it is at least 1, and the roots come out in order |
| `EditScript.FindBest` | src/morpho/morpho_dictionary_encoder.h:228-236 | the search finds the first longest common substring |
| `EditScript.BestIsLongest` | src/morpho/morpho_dictionary_encoder.h:228-236 | no common substring is longer, and of those as long it is the first, by where it starts in the old string and then in the new one |
| `EditScript.ScriptLeadsTo` | src/morpho/morpho_dictionary_encoder.h:238-251 | applying the script made from a common substring to the old string gives the new one, empty strings included |
| `EditScript.NoOperationMeansEqual` | src/derivator/derivator_dictionary_encoder.cpp:194-210 | the operations byte is zero exactly when both strings are equal |
| `EditScript.Replay` | src/morpho/morpho_dictionary.h:82-92 | replaying an encoded script in place gives exactly the new string, within a buffer that holds both |
| `DictionaryCodec.EncodeText` | src/morpho/morpho_dictionary_encoder.h:217-223 | delta code of a text against the one before |
| `DictionaryCodec.EncodeScript` | src/morpho/morpho_dictionary_encoder.h:228-251 | code of the edit script between two strings |
| `DictionaryCodec.EncodeRoots` | src/morpho/morpho_dictionary_encoder.h:227-255 | codes of all roots of a lemma, each against the one before |
| `DictionaryCodec.EncodeLemmas` | src/morpho/morpho_dictionary_encoder.h:214-257 | codes of all lemmas in order |
| `StoredFormats.ScriptBytes` | src/morpho/morpho_dictionary_encoder.h:238-251 | the bytes of a script that removes and adds at the start and adds at the end, and of one that removes at the end |
| `StoredFormats.TextAfter` | src/morpho/morpho_dictionary_encoder.h:217-223 | the bytes of a text after another: how many to drop, how many to append, and these |
| `StoredFormats.LemmaAfter` | src/morpho/morpho_dictionary_encoder.h:214-257 | the bytes of a lemma with additional information and one root |
| `StoredFormats.TagsAndLengths` | src/morpho/morpho_dictionary_encoder.h:89-93 | the bytes of tags and of the numbers of texts of each length |
| `StoredFormats.SuffixNumbers` | src/morpho/morpho_dictionary_encoder.h:266-280 | the numbers stored with a suffix that occurs in two classes |
| `DictionaryCodec.ReadText` | src/morpho/morpho_dictionary.h:59-61 | the buffer that holds the previous text comes to hold the encoded one, and reading stops after its code |
| `DictionaryCodec.ReadRoot` | src/morpho/morpho_dictionary.h:82-93 | the buffer that holds the previous root comes to hold the encoded one |
| `SuffixTable.Encode` | src/morpho/morpho_dictionary_encoder.h:266-280 | the entry of a suffix: its classes in ascending order, where their tags start, and the tags |
| `SuffixTable.SizeDelimits` | src/morpho/morpho_dictionary.h:162-165 | the size read from an entry is its length, whatever follows it |
| `SuffixTable.LowerBound` | src/utils/unaligned_access.h:36-37 | the bisection finds the first element that is not less |
| `SuffixTable.FindTags` | src/morpho/morpho_dictionary.h:180-190 | finds exactly the tags of a class, none if the suffix does not occur in it |
| `DictionaryFile.Histogram.Add` | src/morpho/morpho_dictionary_encoder.h:84-87 | a text is counted under its length, once for each different text |
| `DictionaryFile.Histogram.Encode` | src/morpho/morpho_dictionary_encoder.h:89-93 | the numbers of different texts of each length |
| `DictionaryFile.EncodeFile` | src/morpho/morpho_dictionary_encoder.h:208-264 | the stream but for the suffix table |
| `DictionaryFile.LoadLengths` | src/morpho/morpho_dictionary.h:42-45 | an empty hash for every length announced |
| `DictionaryFile.ReadTags` | src/morpho/morpho_dictionary.h:123-129 | the tags read are those written |
| `DictionaryLoader.FirstPass` | src/morpho/morpho_dictionary.h:52-70 | announces exactly the entries of all lemmas and roots |
| `DictionaryLoader.SecondPass` | src/morpho/morpho_dictionary.h:71-112 | stores exactly the announced entries, with the places of roots in lemmas and of lemmas in roots |
| `DictionaryLoader.LoadLemmas` | src/morpho/morpho_dictionary.h:47-121 | after both passes the hashes hold every lemma and every root, and the links between them are right |
| `DictionaryAnswers.RootAnswersSelect` | src/morpho/morpho_dictionary.h:180-190 | what the suffix table says of the roots of a lemma is exactly what its forms say |
| `DictionaryAnswers.ByLengthAnswers` | src/morpho/morpho_dictionary.h:169-194 | asking root length by root length leaves out nothing if the other lengths have no answers |
| `DictionaryForms.RowsAreClasses` | src/morpho/morpho_dictionary.h:134-151 | the rows collected from the suffix table are the classes, up to order |
| `DictionaryForms.GeneratedExactly` | src/morpho/morpho_dictionary.h:197-243 | a form is listed under a name exactly if some lemma asked for has that name and that form, accepted by the filter |
| `DictionaryForms.AnswersExactly` | src/morpho/morpho_dictionary.h:154-195 | an answer is listed exactly if some lemma prints so and has the form with the tag |
| `DictionaryForms.GenerateAnalyzeConverse` | src/morpho/morpho_dictionary.h:154-243 | with right analyses, a form with a tag is generated for a lemma exactly if analyzing the form lists the lemma with the tag |
| `MorphoDictionary.Dictionary.Load` | src/morpho/morpho_dictionary.h:39-152 | reading the stream of a compiled dictionary, suffix table included, gives a dictionary that stands for it |
| `MorphoDictionary.AddSuffix` | src/morpho/morpho_dictionary.h:135-150 | each class that has the suffix gets one more row with the tags for it, and no other class changes |
| `MorphoDictionary.Dictionary.LoadClasses` | src/morpho/morpho_dictionary.h:134-151 | the classes rebuilt from the suffix table are those compiled, up to order |
| `MorphoDictionary.Dictionary.FindSuffixes` | src/morpho/morpho_dictionary.h:156-167 | exactly the suffixes up to the first that is not stored; nothing longer can be stored unless the empty one is missing |
| `MorphoDictionary.Dictionary.ScanRoots` | src/morpho/morpho_dictionary.h:170-194 | for one split of the form, all answers of roots of that length and no others |
| `MorphoDictionary.Dictionary.Analyze` | src/morpho/morpho_dictionary.h:154-195 | exactly the answers of the compiled dictionary, as often as they occur, if some class has the empty suffix, and nothing at all otherwise |
| `MorphoDictionary.Dictionary.GenerateRoots` | src/morpho/morpho_dictionary.h:212-238 | the accepted forms of one lemma, up to order |
| `MorphoDictionary.Dictionary.Generate` | src/morpho/morpho_dictionary.h:197-243 | for every lemma that matches the query, one entry with its accepted forms if there are any; the result tells whether a lemma matched |
| `DictionaryCompiler.CompileLemma` | src/morpho/morpho_dictionary_encoder.h:145-204 | a compiled lemma stands for exactly the set of forms of the raw one, and lengths are counted |
| `DictionaryCompiler.Compile` | src/morpho/morpho_dictionary_encoder.h:140-207 | all lemmas are compiled and come out in order, and all classes keep to the suffix limit |
| `Sequences.SortByOrders` | src/morpho/morpho_dictionary_encoder.h:204-206 | sorting by a total order orders |
| `Sequences.SortByStable` | src/morpho/morpho_dictionary_encoder.h:204-206 | and keeps the order of what it does not tell apart |
| `DictionaryCompiler.CompiledAnswers` | src/morpho/morpho_dictionary_encoder.h:140-207 | if printing undoes parsing, the compiled dictionary answers what the raw one says, as often |
| `DictionaryEndToEnd.EncodeSuffixes` | src/morpho/morpho_dictionary_encoder.h:266-280 | the table written holds the entry of every suffix, and empty entries for their suffixes; it is not written exactly when its entries do not fit |
| `DictionaryEndToEnd.ImagesFit` | src/morpho/persistent_unordered_map_encoder.h:49-88 | the built hashes can be saved exactly if the number of lengths, the numbers of buckets and the sizes fit, which the entries alone tell |
| `DictionaryEndToEnd.SaveableAlike` | src/morpho/persistent_unordered_map_encoder.h:49-75 | in whatever order the entries are listed |
| `DictionaryEndToEnd.Publish` | src/morpho/morpho_dictionary_encoder.h:129-281 | compiling, encoding and loading fails exactly when something in the compilation, a function of the raw dictionary, does not fit in its field, the suffix table included; otherwise the loaded dictionary stands for the compilation, which answers what the raw dictionary says |
| `DictionaryLaws.WidthsMean` | src/morpho/morpho_dictionary_encoder.h:208-264 | what fits in the fields of the file, number by number |
| `DictionaryLaws.SuffixFitsMeans` | src/morpho/morpho_dictionary_encoder.h:266-280 | what is stored with a suffix fits exactly if there are at most 65536 classes, and less than that many with the suffix, less than that many tags for it in all, each with a number less than that |
| `DictionaryLaws.SaveableMeans` | src/morpho/persistent_unordered_map_encoder.h:49-90 | what hashes of the suffix table fit, number by number |
| `DictionaryLaws.SizeIs` | src/morpho/persistent_unordered_map_encoder.h:60-66 | the bytes that the keys of one length and their payloads take, added up one after the other |
| `DictionaryLaws.EmptySuffixMeans` | src/morpho/morpho_dictionary_encoder.h:187-197 | the empty suffix is stored exactly if it is an ending of some class |
| `DictionaryEndToEnd.PublishedAnswers` | src/morpho/morpho_dictionary.h:154-195 | analyzing a form lists exactly the lemmas and tags of the raw entries with that form, if some class has the empty suffix |
| `DictionaryEndToEnd.RawAnswersCount` | src/morpho/morpho_dictionary.h:154-195 | how often an answer is what the raw dictionary says: once for each raw lemma of that name that has the form with the tag |
| `DictionaryEndToEnd.AskAnalyses` | src/morpho/morpho_dictionary.h:154-195 | if some class has the empty suffix, each lemma is listed with a tag as often as there are raw lemmas of that name that have the form with the tag; otherwise nothing is listed |
| `DictionaryEndToEnd.PublishedForms` | src/morpho/morpho_dictionary.h:197-243 | generating from a published dictionary lists exactly the raw lemmas asked for that have accepted forms, as often as they occur, each with exactly its accepted forms |
| `DictionaryEndToEnd.RawGeneratedCount` | src/morpho/morpho_dictionary.h:197-243 | how often a name with a set of forms is what the raw dictionary says |
| `DictionaryEndToEnd.PublishedFormsExactly` | src/morpho/morpho_dictionary.h:197-243 | a form is generated under a name exactly if the raw dictionary has it under that name, the query asks for the raw text and the information of the name, and its tag is accepted |
| `DictionaryEndToEnd.AskForms` | src/morpho/morpho_dictionary.h:197-243 | under each name, a set of forms is listed as often as there are raw lemmas with the raw text asked for that match the query, are printed so, and have these forms with accepted tags; a match is reported exactly if there is such a lemma, with forms or without |
| `DictionaryEndToEnd.RightExactlyWhen` | src/morpho/morpho_dictionary.h:161-167 | analysis of a form is right if and only if some class has the empty suffix or the dictionary says nothing about the form |
| `DictionaryEndToEnd.AllRightExactlyWhen` | src/morpho/morpho_dictionary.h:161-169 | analysis of all forms is right if and only if some class has the empty suffix or no lemma has a form |
| `DictionaryEndToEnd.EndlessCompiled` | src/morpho/morpho_dictionary_encoder.h:140-207 | what the compiler makes of one lemma with two forms: one root, two suffixes, none of them empty |
| `DictionaryEndToEnd.EndlessIsWrong` | src/morpho/morpho_dictionary.h:161-169 | the dictionary compiled from that lemma answers nothing about a form that the raw dictionary has |
| `DerivationForest.ChooseParent` | src/derivator/derivator_dictionary_encoder.cpp:123-135 | if some possible parent has the sense of the lemma, the chosen one has it and no smaller possible parent has; otherwise the chosen one is the smallest of all |
| `DerivationForest.ChooseParents` | src/derivator/derivator_dictionary_encoder.cpp:123-142 | every lemma gets the parent chosen for it, and every count of children is the number of lemmas that chose it |
| `DerivationForest.ChosenIs` | src/derivator/derivator_dictionary_encoder.cpp:123-142 | the choice is a function of the possible parents and senses |
| `DerivationLaws.ChosenMeans` | src/derivator/derivator_dictionary_encoder.cpp:123-142 | what the choice leaves of what is known, the parent it gives, told by the senses of the possible ones, and how many children it counts |
| `DerivationForest.Walk` | src/derivator/derivator_dictionary_encoder.cpp:148-159 | one marking walk reports only cycles that exist, and if it reports none every marked lemma reaches a root |
| `DerivationForest.ContainsCycle` | src/derivator/derivator_dictionary_encoder.cpp:144-162 | a cycle is reported if and only if the chosen parents have one; otherwise every lemma reaches a root |
| `DerivationLaws.CycleMeans` | src/derivator/derivator_dictionary_encoder.cpp:144-160 | there is a cycle exactly if some lemmas are each the child of the next, and the last of the first |
| `DerivationForest.EndsNotOnCycle` | src/derivator/derivator_dictionary_encoder.cpp:149-159 | a lemma that reaches a root is on no cycle |
| `DerivatorEncoder.ListNodes` | src/derivator/derivator_dictionary_encoder.cpp:171-182 | all lemmas once each, in ascending order |
| `DerivatorEncoder.ListingUnique` | src/derivator/derivator_dictionary_encoder.cpp:171-182 | there is only one such listing |
| `DerivatorEncoder.CountLengths` | src/derivator/derivator_dictionary_encoder.cpp:170-175 | how many lemmas have each length, up to the longest |
| `DerivatorEncoder.Encode` | src/derivator/derivator_dictionary_encoder.cpp:123-225 | told from what is known about the lemmas alone, encoding fails exactly when the chosen parents run in a cycle or something does not fit in its field; otherwise the stream is that of all nodes |
| `DerivationLaws.AcceptableMeans` | src/derivator/derivator_dictionary_encoder.cpp:123-225 | what is accepted, number by number |
| `StoredFormats.NodeAfter` | src/derivator/derivator_dictionary_encoder.cpp:183-195 | the bytes of a lemma with a comment, one child and no parent |
| `DerivatorCodec.EncodeNodes` | src/derivator/derivator_dictionary_encoder.cpp:180-224 | the stream of nodes, each against the one before |
| `DerivatorCodec.ReadParent` | src/derivator/derivator_dictionary.cpp:92-109 | reading gives the encoded parent, none exactly for a zero operations byte, since no lemma is its own parent |
| `DerivatorCodec.ReadNode` | src/derivator/derivator_dictionary.cpp:82-109 | reading gives back text, comment, number of children and parent |
| `DerivatorLayout.KidsExact` | src/derivator/derivator_dictionary_encoder.cpp:137-138 | the children listed for a lemma are exactly those that chose it, in order |
| `DerivatorLayout.LayoutParent` | src/derivator/derivator_dictionary.cpp:133-135 | writing the parent leaves the rest of an entry |
| `DerivatorLayout.LayoutKid` | src/derivator/derivator_dictionary.cpp:139-144 | writing a child in the next slot and counting on in the last one keeps all earlier children, also when the last slot itself is overwritten |
| `DerivatorDictionary.Derivator.AddPass` | src/derivator/derivator_dictionary.cpp:111-112 | announces exactly the entries of all nodes |
| `DerivatorDictionary.Derivator.FillPass` | src/derivator/derivator_dictionary.cpp:113-119 | stores every comment and count, with no parent and a counter of zero |
| `DerivatorDictionary.Derivator.StoreParent` | src/derivator/derivator_dictionary.cpp:133-135 | the entry of the lemma names its parent, and no other entry changes |
| `DerivatorDictionary.Derivator.StoreChild` | src/derivator/derivator_dictionary.cpp:137-144 | the child is appended to the list of the parent, and the counter is right until the last child replaces it |
| `DerivatorDictionary.Derivator.LinkNode` | src/derivator/derivator_dictionary.cpp:120-145 | both ends of one edge are written |
| `DerivatorDictionary.Derivator.LinkPass` | src/derivator/derivator_dictionary.cpp:120-152 | after the third pass every edge is written at both ends |
| `DerivatorDictionary.Derivator.Load` | src/derivator/derivator_dictionary.cpp:68-157 | loading the stream of nodes gives entries with exactly their parents and children |
| `DerivatorDictionary.Derivator.Parent` | src/derivator/derivator_dictionary.cpp:18-39 | finds the parent with its comment if the lemma is known and has one, and nothing otherwise |
| `DerivatorDictionary.Derivator.Children` | src/derivator/derivator_dictionary.cpp:41-66 | finds exactly the children with their comments, in order |
| `DerivatorDictionary.ParentRefZero` | src/derivator/derivator_dictionary.cpp:27-28 | the stored reference is zero exactly for lemmas without parent |
| `DerivatorDictionary.ParentsAndChildrenAgree` | src/derivator/derivator_dictionary.cpp:18-66 | a lemma occurs among the children of its parent exactly once, and among those of no other lemma |
| `DerivationEndToEnd.Publish` | src/derivator/derivator_dictionary_encoder.cpp:123-225 | choosing parents, encoding and loading fails exactly when the encoder does; otherwise the derivator has loaded everything known |
| `DerivationEndToEnd.AskParent` | src/derivator/derivator_dictionary.cpp:18-39 | from what is known to the answer: a possible parent of the lemma in the name, with its comment; it has the sense of the lemma if some possible parent has, and then no smaller one has; otherwise it is the smallest of all. There is an answer for every lemma with possible parents |
| `DerivationEndToEnd.AskChildren` | src/derivator/derivator_dictionary.cpp:41-66 | from what is known to the answer: the lemmas that chose this one, each with its comment, in ascending order, each once |
| `DerivationEndToEnd.AnswersFinite` | src/derivator/derivation_formatter.cpp:51-113 | for data without cycles, following the answers ends, both upwards and downwards |
| `DerivationEndToEnd.KnownAgree` | src/derivator/derivator_dictionary.cpp:18-66 | for full names, a lemma is among the children of its parent, once, and of no other |
| `DerivationEndToEnd.TreePrinted` | src/derivator/derivation_formatter.cpp:91-113 | the words of the tree printed below a lemma are the full names of the lemmas derived from it, each once |
| `DerivationLaws.UnderMeans` | src/derivator/derivation_formatter.cpp:109-111 | a lemma is below another exactly if a chain of parents leads from the one to the other |
| `DerivationFormatter.FormatRoot` | src/derivator/derivation_formatter.cpp:51-55 | ends at the root above the lemma |
| `DerivationFormatter.ReachesMeans` | src/derivator/derivation_formatter.cpp:51-53 | an ancestor so many steps up is the end of a chain of so many parents |
| `DerivationFormatter.AncestorsMean` | src/derivator/derivation_formatter.cpp:69-75 | each ancestor listed is the parent of the one before, the k-th is k + 1 steps up, and the last has no parent |
| `DerivationFormatter.FormatPath` | src/derivator/derivation_formatter.cpp:69-77 | the lemma and all its ancestors, each the parent of the one before, up to one without parent, separated by spaces |
| `DerivationFormatter.FormatTree` | src/derivator/derivation_formatter.cpp:98-113 | appends the printed tree below a lemma |
| `DerivationFormatter.TreeMeans` | src/derivator/derivation_formatter.cpp:109-111 | the tree of a lemma has its name and, in the order of the answer, the trees of its children |
| `DerivationFormatter.PrintExample` | src/derivator/derivation_formatter.cpp:98-113 | the bytes of a tree with two children |
| `DerivationFormatter.FormatWholeTree` | src/derivator/derivation_formatter.cpp:91-96 | the lemma followed by the printed tree below its root |
| `DerivationFormatter.PrintInjective` | src/derivator/derivation_formatter.cpp:98-113 | for nonempty names without spaces, different trees print differently, whatever follows |
| `DerivationFormatter.OutputInjective` | src/derivator/derivation_formatter.cpp:91-96 | the whole output tells the lemma and the tree |
| `DerivationFormatter.WordsOfTree` | src/derivator/derivation_formatter.cpp:98-113 | the words of a printed tree are its names in preorder |
| `DerivationFormatter.TreeHoldsDescendants` | src/derivator/derivation_formatter.cpp:109-111 | the tree holds exactly the descendants of its root |
| `DerivationFormatter.TreeDistinct` | src/derivator/derivation_formatter.cpp:109-111 | no lemma occurs twice in it |
| `DerivationFormatter.PrintedOnce` | src/derivator/derivation_formatter.cpp:91-113 | every descendant of the root is printed exactly once, in preorder, and nothing else is |
| `GruTokenizer.Tokenizer.SetText` | src/tokenizer/unicode_tokenizer.cpp:24-37 | a new text starts at its beginning |
| `GruTokenizer.Tokenizer.FillWindow` | src/tokenizer/gru_tokenizer.cpp:55-80 | the window holds consecutive steps from the current position, each run of spaces as one, and the network sees exactly them, with a space after the end of the text |
| `GruTokenizer.ShownMeans` | src/tokenizer/gru_tokenizer.cpp:67-72 | the network sees a character as it is, and a run of separators, tabs and line ends as one space |
| `GruTokenizer.Tokenizer.SplitAtSpaces` | src/tokenizer/gru_tokenizer.cpp:82-97 | every outcome before spaces is adjusted by what follows it, and no other changes; if tokens may hold no spaces, one ends before each |
| `GruTokenizer.AdjustedMeans` | src/tokenizer/gru_tokenizer.cpp:83-97 | when an outcome before spaces becomes the end of a sentence, and when it stays no split |
| `GruTokenizer.BlankLineMeans` | src/tokenizer/gru_tokenizer.cpp:88-90 | an empty line is two line feeds, or twice a carriage return and a line feed |
| `GruTokenizer.Tokenizer.CutBack` | src/tokenizer/gru_tokenizer.cpp:99-105 | a full window is cut just before the last step that splits, of those between its middle and its last five, or in the middle |
| `GruTokenizer.CutAfterSplit` | src/tokenizer/gru_tokenizer.cpp:100-105 | what is left of a full window ends with a step that splits if and only if the last such step that may be cut off follows another one, or none may be cut off and the step before the middle splits |
| `GruTokenizer.CutInsideToken` | src/tokenizer/gru_tokenizer.cpp:100-105 | a full window that is cut inside a token |
| `GruTokenizer.Tokenizer.NextWindow` | src/tokenizer/gru_tokenizer.cpp:55-106 | a new window starts at the current position and holds what the network says of it, adjusted at spaces and cut back |
| `GruTokenizer.Tokenizer.LoggedNext` | src/tokenizer/gru_tokenizer.cpp:54-108 | the log of steps, each one of a window that holds what the network says there, taken in turn window by window, stays such a log |
| `GruTokenizer.Tokenizer.NextOutcome` | src/tokenizer/gru_tokenizer.cpp:54-108 | takes the next step of the window, or the first of a new one exactly when it is used up, moves to its end and returns and logs its outcome |
| `GruTokenizer.Tokenizer.CatchUp` | src/tokenizer/gru_tokenizer.cpp:35-37 | after an address the window is moved to the position behind it, step by step as far as it reaches, and the sentence ends exactly if one of the steps passed says so |
| `GruTokenizer.Tokenizer.SkipSpaces` | src/tokenizer/gru_tokenizer.cpp:27-29 | moves to the next character that is not a space or to the end |
| `GruTokenizer.Tokenizer.TokenizeUrl` | src/tokenizer/gru_tokenizer.cpp:33-34 | takes an address exactly if the recogniser finds one |
| `GruTokenizer.Tokenizer.TakeToken` | src/tokenizer/gru_tokenizer.cpp:41-48 | the steps of a token lead from its start to its end, none but the last splits, and the last one does unless the text ends; the sentence ends exactly if the last one says so |
| `GruTokenizer.Tokenizer.TokenMeans` | src/tokenizer/gru_tokenizer.cpp:31-49 | a token is an address, or consists of steps taken one after the other of which only the last splits, unless the text ends |
| `GruTokenizer.Tokenizer.NextToken` | src/tokenizer/gru_tokenizer.cpp:27-49 | the next token is the address that starts there, or else ends with its first step that splits; the sentence ends after it exactly if some step taken inside it says so |
| `GruTokenizer.Tokenizer.NextSentence` | src/tokenizer/gru_tokenizer.cpp:19-52 | for any outcomes, ends; moves on unless only spaces are left; together with the earlier ones its tokens cover the text so far; unless the text ends, a sentence of fewer than 400 tokens ends with a token inside which the network says so, from 400 tokens on it may also end with other punctuation, from 450 on with any punctuation, and it has at most 500; no earlier token is like that |
| `GruTokenizer.Tokenizer.TokenizeAll` | src/tokenizer/gru_tokenizer.cpp:19-52 | repeated calls end; their tokens are in order, apart, and cover every character but spaces, tabs and line ends, each is split where the network first says so, and the rules about 400, 450 and 500 tokens hold of every sentence but, at its end, the last |
| `GruTokenizer.CoveredOnce` | src/tokenizer/gru_tokenizer.cpp:41-48 | no character belongs to two tokens |
| `PrefixMasks.ReachIsSplit` | src/morpho/morpho_prefix_guesser.h:75-89 | a filter reaches a position only if the text up to it splits into stored middle prefixes that all allow it |
| `PrefixMasks.SplitReaches` | src/morpho/morpho_prefix_guesser.h:75-89 | and every such split reaches it |
| `PrefixMasks.Extend` | src/morpho/morpho_prefix_guesser.h:79-88 | one round keeps the masks right while the vector they are in grows |
| `PrefixMasks.MiddleMasks` | src/morpho/morpho_prefix_guesser.h:75-89 | the finished masks hold exactly the filters that reach each position, whatever the vector held before |
| `PrefixMasks.FindCandidates` | src/morpho/morpho_prefix_guesser.h:65-91 | the pairs of positions looked up are exactly those reached by some filter, each once and in order |
| `PrefixMasks.CandidateMeans` | src/morpho/morpho_prefix_guesser.h:65-91 | a candidate has the bit of a filter exactly if the full mask has it, or the initial prefix is stored with it, and the text up to the middle splits into stored prefixes that all have it |
| `PrefixMasks.AllowsMeans` | src/morpho/morpho_prefix_guesser.h:79-85 | a part of such a split is not empty, it is stored, and its mask has the bit of the filter |
| `PrefixMasks.SplitIsListed` | src/morpho/morpho_prefix_guesser.h:65-91 | every such way to split is among the candidates |
| `PrefixMasks.BitOfOne` | src/morpho/morpho_prefix_guesser.h:101 | the bit of a filter is 1 shifted by its number |
| `StatisticalGuesser.EnlargedRules` | src/morpho/morpho_statistical_guesser_encoder.cpp:68-83 | the stored map has exactly the rules, and empty ones for their prefixes |
| `StatisticalGuesser.SuffixStored` | src/morpho/morpho_statistical_guesser.cpp:50-55 | the suffix of a matching rule is stored, and so is each shorter one |
| `StatisticalGuesser.PrefixStored` | src/morpho/morpho_statistical_guesser.cpp:63-71 | so is each label with a shorter prefix |
| `StatisticalGuesser.MatchesExactly` | src/morpho/morpho_statistical_guesser_encoder.cpp:36-40 | rules are stored under the suffix backwards, a space and the prefix, and those under a label of the form are exactly those with whose suffix the form ends and with whose prefix it starts, without overlap |
| `StatisticalGuesser.Guesser.LongestSuffix` | src/morpho/morpho_statistical_guesser.cpp:50-55 | stopping at the first suffix that is not stored misses no rule |
| `StatisticalGuesser.Guesser.LongestPrefix` | src/morpho/morpho_statistical_guesser.cpp:61-71 | among the rules with a suffix, the one with the longest prefix, none exactly if no rule matches |
| `StatisticalGuesser.Guesser.Search` | src/morpho/morpho_statistical_guesser.cpp:47-75 | of all rules, each with a prefix and a suffix, such that the form starts with the prefix and ends with the suffix without overlap, those with the longest suffix and, for it, the longest prefix; none exactly if there is no such rule |

## Left out

What the contracts above assume, or state of less than the program:

- DictionaryEndToEnd.Publish: forms and tags hold no tab, as in raw dictionaries; where a width is exceeded it gives no dictionary and the program stops with a message. A hash of 2 GB or more counts as not fitting, since the program sums its size up in a signed number of four bytes.
- MorphoDictionary.Dictionary.Load: each hash is smaller than 2 GB, and there are fewer than 2^31 lemmas, since the program counts both in signed numbers; `DictionaryEndToEnd.Publish` counts more as not fitting.
- DerivatorDictionary.Derivator.Load: each hash holds at most 16 MB, so that the offsets fit that the program asserts to; then there are also fewer lemmas than its signed counter can count.
- DerivationEndToEnd.AskParent: the dictionary that tells the lemma in a name is an arbitrary function.
- DerivationEndToEnd.TreePrinted: asks that this function gives back the lemma of each full name, and that full names are nonempty and hold no space.
- EditScript.Replay: texts are arbitrary bytes; the program handles some of them as strings that end at a zero byte, so raw data is taken to hold none.
- DictionaryForms.GenerateAnalyzeConverse: asks that lemmas that print alike have the same raw text and match the query, which parsing a full lemma gives.
- FrozenTagger.FrozenDecodesAlike: compares with a tagger that scores by the averaged weights before renumbering, not with decoding during training.
- FnvHash.Hash.DoneAdding: offsets do not wrap around at 32 bits, and the mask of the index is a remainder.
- FeatureSequences.Cache.ScoreWindow: scores do not overflow 64 bits.
- Viterbi.CountNodes: the number of nodes does not wrap around.
- FeatureOptimizer.BuildTable: leaves open in what order equally frequent features come, as `std::sort` does.
- FeatureOptimizer.Optimize: keys have one number for each element of their template, which the program asserts; weights fit in 32 bits.
- ViterbiResult.TaggingIsOptimal: with a longer window or with dynamic features decoding is approximate by design, and only `Viterbi.Decoder.Tag` applies.
- GruTokenizer.Tokenizer.NextOutcome: the segment has at least 10 characters, as the trainer makes sure (`src/tokenizer/gru_tokenizer_network_trainer.h:84`).
- LazyAveraging.Trainer.TrainIteration: the keys of decoded and gold tags are arbitrary; best iteration and heldout data are not modelled.
- StatisticalGuesser.Guesser.Search: which rule is selected; applying it, and ignoring the one with empty suffix and prefix when it is selected, is not modelled.

What is not modelled:

- Tries, forests and maps of training are values; the loops over them are methods. Hashes are fields of type `seq`.
- The order of iteration over unordered maps is arbitrary wherever the result does not depend on it.
- Parsing and printing of lemmas (`src/morpho/generic_lemma_addinfo.h`, `src/morpho/czech_lemma_addinfo.h`, `src/morpho/english_lemma_addinfo.h`) are arbitrary functions, with the condition that printing undoes parsing where it matters; tag filters are arbitrary predicates.
- The text of feature templates is taken as split into tokens; elementary features are arbitrary values.
- Reading of raw dictionaries and of derivation data, and matching of lemmas against a dictionary, up to the point where lemmas have their possible parents.
- Reading, writing and compression of files; errors of truncated files; machines that are not little-endian, where saved maps would differ.
- The network of the tokenizer and its training, Unicode tables, and the automata that recognise addresses: outcomes and addresses are arbitrary, except that an address contains no space.
- The lookup of candidate forms in the prefix guesser, which reuses a buffer, and applying the rules of the statistical guesser.
- Converters of tag sets, tag filters, other tokenizers, bindings, command line tools and the server: they would add only easier members.
