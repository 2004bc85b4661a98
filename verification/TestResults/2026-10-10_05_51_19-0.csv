TestResult.DisplayName,TestResult.Outcome,TestResult.Duration,TestResult.ResourceCount,RandomSeed
BlockRegistry.RegisterWithoutMarkers (well-formedness) (assertion batch 1),Passed,00:00:00.3055125,92866,2
BlockRegistry.RegisterWithoutMarkers (well-formedness) (assertion batch 5),Passed,00:00:00.2626265,92073,2
BlockRegistry.RegisterWithoutMarkers (well-formedness) (assertion batch 2),Passed,00:00:00.2428939,93333,2
Markers.FindMarkerLeftmost (correctness) (assertion batch 3),Passed,00:00:00.1633559,572380,2
Markers.ScriptComments (correctness) (assertion batch 3),Passed,00:00:00.1587254,468689,2
Markers.MarkerEnd (well-formedness) (assertion batch 1),Passed,00:00:00.1511416,38321,2
BlockRegistry.RegisterWithoutMarkers (well-formedness) (assertion batch 6),Passed,00:00:00.1488684,92458,2
BlockRegistry.RegisterWithoutMarkers (correctness) (assertion batch 10),Passed,00:00:00.1483758,164288,2
BlockRegistry.RegisterWithoutMarkers (correctness) (assertion batch 9),Passed,00:00:00.1471162,157224,2
BlockRegistry.RegisterWithoutMarkers (well-formedness) (assertion batch 4),Passed,00:00:00.1406887,91667,2
BlockRegistry.RegisterWithoutMarkers (well-formedness) (assertion batch 3),Passed,00:00:00.1406719,88404,2
Markers.MarkersWellFormed (correctness) (assertion batch 5),Passed,00:00:00.1316585,36621,2
Markers.SlashesMatchAfterOpening (correctness) (assertion batch 15),Passed,00:00:00.1316315,564894,2
Markers.ScriptComments (correctness) (assertion batch 4),Passed,00:00:00.1252995,406919,2
Markers.MarkersWellFormed (correctness) (assertion batch 4),Passed,00:00:00.1243402,31618,2
Markers.SlashesMatchAfterOpening (correctness) (assertion batch 18),Passed,00:00:00.1173449,42625,2
Markers.CommentOpenFindsComment (correctness) (assertion batch 7),Passed,00:00:00.1151545,460560,2
BlockRegistry.RegisterWithoutMarkers (correctness) (assertion batch 6),Passed,00:00:00.1097735,62597,2
Markers.SlashesMatchAfterOpening (correctness) (assertion batch 19),Passed,00:00:00.1067693,43622,2
Markers.PadAfterWord (correctness) (assertion batch 5),Passed,00:00:00.1065964,176204,2
Markers.ReplaceHit (well-formedness) (assertion batch 16),Passed,00:00:00.1061017,31200,2
Markers.MarkerEndMeans (correctness) (assertion batch 27),Passed,00:00:00.1032260,79567,2
Markers.CommentPieces (correctness) (assertion batch 28),Passed,00:00:00.1025505,37040,2
Markers.FirstAtComment (correctness) (assertion batch 16),Passed,00:00:00.1021285,277037,2
Markers.MarkerEndMeans (correctness) (assertion batch 2),Passed,00:00:00.1009256,186149,2
BlockRegistry.RegisterWithoutMarkers (correctness) (assertion batch 5),Passed,00:00:00.0999854,62446,2
Markers.FirstAtComment (correctness) (assertion batch 4),Passed,00:00:00.0980881,61004,2
Markers.MarkersWellFormed (correctness) (assertion batch 9),Passed,00:00:00.0956302,146614,2
Markers.FirstInsideComment (correctness) (assertion batch 15),Passed,00:00:00.0916958,66349,2
Markers.InsertsBeforeComment (correctness) (assertion batch 10),Passed,00:00:00.0905670,64632,2
Markers.MarkerEndMeans (correctness) (assertion batch 7),Passed,00:00:00.0905487,68346,2
Markers.MarkerEndMeans (correctness) (assertion batch 15),Passed,00:00:00.0889896,76316,2
Markers.LeadSpansTo (correctness) (assertion batch 2),Passed,00:00:00.0880945,35944,2
Markers.ReplaceHit (well-formedness) (assertion batch 17),Passed,00:00:00.0872767,30693,2
Markers.NoMarkerExtend (correctness),Passed,00:00:00.0865736,119730,2
BlockRegistry.RegisterWithoutMarkers (correctness) (assertion batch 7),Passed,00:00:00.0856110,66368,2
Markers.PadForced (well-formedness) (assertion batch 2),Passed,00:00:00.0855914,19172,2
Markers.MarkerEndMeans (correctness) (assertion batch 10),Passed,00:00:00.0844452,75453,2
Markers.PadForced (correctness) (assertion batch 1),Passed,00:00:00.0843568,30846,2
Markers.MarkerEndMeans (correctness) (assertion batch 6),Passed,00:00:00.0823703,68281,2
Markers.MarkerEndMeans (correctness) (assertion batch 24),Passed,00:00:00.0823325,78729,2
Markers.FirstInsideComment (correctness) (assertion batch 20),Passed,00:00:00.0815549,277479,2
Markers.MarkerEndMeans (correctness) (assertion batch 16),Passed,00:00:00.0801017,76651,2
Markers.SlashesMissStar (correctness) (assertion batch 18),Passed,00:00:00.0793307,45215,2
Markers.LeadSpansTo (correctness) (assertion batch 3),Passed,00:00:00.0792536,36080,2
Markers.SlashesMatchAfterOpening (correctness) (assertion batch 6),Passed,00:00:00.0776316,39047,2
Markers.MarkerEndMeans (correctness) (assertion batch 25),Passed,00:00:00.0770205,79107,2
Markers.InsertsBeforeComment (correctness) (assertion batch 9),Passed,00:00:00.0762967,64454,2
Markers.InsertAtFound (correctness) (assertion batch 4),Passed,00:00:00.0759354,69466,2
Markers.FirstAtComment (correctness) (assertion batch 5),Passed,00:00:00.0758597,61092,2
Markers.InsertAtFound (correctness) (assertion batch 3),Passed,00:00:00.0736651,69289,2
Markers.MarkerEnd (well-formedness) (assertion batch 16),Passed,00:00:00.0728540,45806,2
Markers.SplitsForced (correctness) (assertion batch 39),Passed,00:00:00.0727200,243661,2
Markers.SlashesMissOpening (correctness) (assertion batch 13),Passed,00:00:00.0715059,84355,2
Markers.FirstAtComment (correctness) (assertion batch 3),Passed,00:00:00.0709723,60880,2
Markers.SlashesFindInside (well-formedness) (assertion batch 4),Passed,00:00:00.0709524,52641,2
Markers.GreedySplits (correctness) (assertion batch 27),Passed,00:00:00.0705550,57265,2
Markers.FirstInsideComment (correctness) (assertion batch 16),Passed,00:00:00.0704795,63506,2
Markers.MarkerEndMeans (correctness) (assertion batch 8),Passed,00:00:00.0691194,74771,2
Markers.SplitsForced (correctness) (assertion batch 19),Passed,00:00:00.0685532,39768,2
Markers.RunSkipped (correctness) (assertion batch 2),Passed,00:00:00.0682836,24557,2
Markers.MarkerEndMeans (correctness) (assertion batch 13),Passed,00:00:00.0679347,76112,2
Markers.FirstAtComment (correctness) (assertion batch 2),Passed,00:00:00.0676133,60668,2
Markers.SlashesFindInside (correctness) (assertion batch 25),Passed,00:00:00.0675360,54647,2
Markers.GreedySplits (correctness) (assertion batch 28),Passed,00:00:00.0672795,57239,2
Markers.MarkersWellFormed (correctness) (assertion batch 8),Passed,00:00:00.0670946,63728,2
Markers.GreedySplits (correctness) (assertion batch 34),Passed,00:00:00.0668829,156979,2
Markers.PadEnd (well-formedness) (assertion batch 5),Passed,00:00:00.0664805,25678,2
Markers.SlashesFindInside (well-formedness) (assertion batch 3),Passed,00:00:00.0659070,50681,2
Markers.CommentPieces (correctness) (assertion batch 12),Passed,00:00:00.0657004,120443,2
BlockRegistry.RegisterWithoutMarkers (correctness) (assertion batch 8),Passed,00:00:00.0653377,66519,2
Markers.FindMarkerLeftmost (correctness) (assertion batch 5),Passed,00:00:00.0649148,42776,2
Markers.MarkerEndMeans (correctness) (assertion batch 9),Passed,00:00:00.0647006,75039,2
Markers.FirstInsideComment (correctness) (assertion batch 6),Passed,00:00:00.0645537,59762,2
Markers.MarkerEndMeans (correctness) (assertion batch 18),Passed,00:00:00.0642866,77370,2
Markers.InsertsInsideComment (correctness) (assertion batch 9),Passed,00:00:00.0642226,56506,2
Markers.LeadForced (correctness) (assertion batch 2),Passed,00:00:00.0637943,34126,2
Markers.CommentOpenFindsComment (correctness) (assertion batch 4),Passed,00:00:00.0637300,42330,2
Markers.PadAfterWord (correctness) (assertion batch 2),Passed,00:00:00.0630612,23393,2
Markers.InsertsBeforeComment (correctness) (assertion batch 11),Passed,00:00:00.0628835,138511,2
Markers.FindMarker (well-formedness) (assertion batch 18),Passed,00:00:00.0623102,49680,2
Markers.GreedySplits (correctness) (assertion batch 17),Passed,00:00:00.0621817,57639,2
BlockRegistry.RegisterWithoutMarkers (correctness) (assertion batch 3),Passed,00:00:00.0620564,57722,2
Markers.InsertAfterOpening (correctness) (assertion batch 6),Passed,00:00:00.0618181,35891,2
Markers.SplitsForced (correctness) (assertion batch 31),Passed,00:00:00.0617638,58247,2
Markers.FindMarker (well-formedness) (assertion batch 17),Passed,00:00:00.0614721,49562,2
Markers.FirstAtComment (correctness) (assertion batch 13),Passed,00:00:00.0608550,65188,2
BlockRegistry.RegisterWithoutMarkers (well-formedness) (assertion batch 12),Passed,00:00:00.0607367,50903,2
Markers.SlashesFindInside (correctness) (assertion batch 26),Passed,00:00:00.0606615,54633,2
Markers.FirstAtComment (correctness) (assertion batch 12),Passed,00:00:00.0605468,62763,2
Markers.SlashesFindInside (correctness) (assertion batch 15),Passed,00:00:00.0598658,53390,2
BlockRegistry.RegisterWithoutMarkers (correctness) (assertion batch 4),Passed,00:00:00.0597624,57853,2
Markers.SlashesMatchAfterOpening (correctness) (assertion batch 20),Passed,00:00:00.0595899,74545,2
Markers.ReplaceHit (well-formedness) (assertion batch 13),Passed,00:00:00.0588300,29854,2
Markers.CommentPieces (correctness) (assertion batch 13),Passed,00:00:00.0582339,39043,2
Markers.SkipRun (well-formedness) (assertion batch 1),Passed,00:00:00.0579356,7085,2
Markers.SlashesMissOpening (correctness) (assertion batch 3),Passed,00:00:00.0578920,29129,2
Markers.FirstInsideComment (correctness) (assertion batch 5),Passed,00:00:00.0578195,59748,2
BlockRegistry.RegisterWithoutMarkers (well-formedness) (assertion batch 10),Passed,00:00:00.0576769,50583,2
Markers.InsertsBeforeComment (correctness) (assertion batch 12),Passed,00:00:00.0573241,137232,2
Markers.GreedySplits (correctness) (assertion batch 4),Passed,00:00:00.0572684,45302,2
Markers.InsertsBeforeComment (well-formedness) (assertion batch 1),Passed,00:00:00.0569701,28370,2
Markers.SlashesMatchAfterOpening (well-formedness) (assertion batch 1),Passed,00:00:00.0568973,29924,2
Markers.FirstInsideComment (correctness) (assertion batch 19),Passed,00:00:00.0568446,283360,2
Markers.MarkerEndMeans (correctness) (assertion batch 19),Passed,00:00:00.0563658,77527,2
Markers.CommentPieces (correctness) (assertion batch 17),Passed,00:00:00.0563051,123628,2
Markers.ScriptComments (correctness) (assertion batch 11),Passed,00:00:00.0561921,110520,2
Markers.MarkerEndMeans (correctness) (assertion batch 12),Passed,00:00:00.0561437,69435,2
Markers.GreedySplits (correctness) (assertion batch 35),Passed,00:00:00.0558808,134841,2
Markers.MarkerEndMeans (correctness) (assertion batch 4),Passed,00:00:00.0558059,68081,2
Markers.FirstAtComment (correctness) (assertion batch 15),Passed,00:00:00.0554120,140890,2
Markers.SlashesMissStar (correctness) (assertion batch 8),Passed,00:00:00.0553770,34336,2
Markers.SlashesMissStar (correctness) (assertion batch 7),Passed,00:00:00.0550862,31991,2
Markers.SplitsForced (correctness) (assertion batch 30),Passed,00:00:00.0550182,67162,2
Markers.SplitsForced (correctness) (assertion batch 18),Passed,00:00:00.0549208,39250,2
Markers.SlashesFindInside (correctness) (assertion batch 14),Passed,00:00:00.0548562,53287,2
Markers.FindMarkerAt (correctness) (assertion batch 1),Passed,00:00:00.0547535,134729,2
Markers.ReplaceHit (well-formedness) (assertion batch 12),Passed,00:00:00.0544799,30931,2
Markers.GreedySplits (correctness) (assertion batch 16),Passed,00:00:00.0542186,57085,2
Markers.LeadForced (correctness) (assertion batch 1),Passed,00:00:00.0540489,61501,2
Markers.GreedySplits (correctness) (assertion batch 31),Passed,00:00:00.0539755,148626,2
Markers.CommentOpenMatches (correctness) (assertion batch 11),Passed,00:00:00.0536314,51685,2
Markers.MarkerEndMeans (correctness) (assertion batch 21),Passed,00:00:00.0535668,77988,2
Markers.GreedySplits (correctness) (assertion batch 36),Passed,00:00:00.0534119,147724,2
Markers.SlashesMatchAfterOpening (correctness) (assertion batch 21),Passed,00:00:00.0528915,64756,2
Markers.MarkerEndMeans (correctness) (assertion batch 20),Passed,00:00:00.0528668,77813,2
Markers.RunSkipped (correctness) (assertion batch 3),Passed,00:00:00.0512346,14411,2
Markers.FirstInsideComment (well-formedness) (assertion batch 1),Passed,00:00:00.0508872,17201,2
Markers.CommentOpenMatches (correctness) (assertion batch 4),Passed,00:00:00.0504656,120005,2
Markers.FirstInsideComment (well-formedness) (assertion batch 4),Passed,00:00:00.0500126,51909,2
Markers.MarkerEnd (well-formedness) (assertion batch 5),Passed,00:00:00.0499149,37831,2
Markers.CommentOpenMatches (well-formedness) (assertion batch 2),Passed,00:00:00.0499113,43503,2
Markers.SlashesMissOpening (correctness) (assertion batch 14),Passed,00:00:00.0497786,35580,2
Markers.MarkersWellFormed (correctness) (assertion batch 6),Passed,00:00:00.0495423,32211,2
Markers.FirstInsideComment (correctness) (assertion batch 18),Passed,00:00:00.0486310,63723,2
Markers.FirstInsideComment (well-formedness) (assertion batch 6),Passed,00:00:00.0484038,53217,2
Markers.MarkerEnd (well-formedness) (assertion batch 11),Passed,00:00:00.0482741,43352,2
Markers.SplitsForced (correctness) (assertion batch 38),Passed,00:00:00.0481983,123904,2
Markers.MarkerEndMeans (correctness) (assertion batch 28),Passed,00:00:00.0478529,79778,2
BlockRegistry.RegisterWithoutMarkers (well-formedness) (assertion batch 11),Passed,00:00:00.0472651,50731,2
Markers.ReplaceHitInserts (correctness) (assertion batch 10),Passed,00:00:00.0471218,31305,2
Markers.InsertsBeforeComment (correctness) (assertion batch 7),Passed,00:00:00.0470921,64381,2
Markers.MarkerEnd (well-formedness) (assertion batch 15),Passed,00:00:00.0470415,49719,2
Markers.MarkerEndMeans (correctness) (assertion batch 3),Passed,00:00:00.0470322,82428,2
Markers.MarkerEnd (well-formedness) (assertion batch 13),Passed,00:00:00.0469341,47492,2
Markers.SubstituteLiteral (correctness) (assertion batch 14),Passed,00:00:00.0466278,27808,2
Markers.SubstituteLiteral (correctness) (assertion batch 2),Passed,00:00:00.0465748,76192,2
Markers.FirstInsideComment (well-formedness) (assertion batch 7),Passed,00:00:00.0465024,53762,2
Markers.SlashesMissStar (correctness) (assertion batch 12),Passed,00:00:00.0464098,79476,2
Markers.MarkerEndMeans (correctness) (assertion batch 5),Passed,00:00:00.0463876,68171,2
Markers.MarkerEndMeans (correctness) (assertion batch 17),Passed,00:00:00.0461205,77040,2
Markers.MarkerEndMeans (correctness) (assertion batch 11),Passed,00:00:00.0460672,75647,2
Markers.FindMarkerLeftmost (well-formedness) (assertion batch 2),Passed,00:00:00.0457464,52306,2
Markers.GreedySplits (correctness) (assertion batch 3),Passed,00:00:00.0456690,44346,2
Markers.InsertAtFound (correctness) (assertion batch 2),Passed,00:00:00.0454332,71473,2
Markers.MarkerEnd (well-formedness) (assertion batch 19),Passed,00:00:00.0453119,44047,2
Markers.MarkerEndMeans (correctness) (assertion batch 26),Passed,00:00:00.0441573,79260,2
Markers.InsertsInsideComment (correctness) (assertion batch 16),Passed,00:00:00.0440490,80411,2
Markers.FirstInsideComment (well-formedness) (assertion batch 5),Passed,00:00:00.0439149,52257,2
Markers.InsertAtFound (correctness) (assertion batch 1),Passed,00:00:00.0437226,76420,2
Markers.PadAfterWord (correctness) (assertion batch 13),Passed,00:00:00.0435829,86739,2
Markers.MarkersWellFormed (correctness) (assertion batch 12),Passed,00:00:00.0435654,74491,2
Markers.ReplaceHitInserts (correctness) (assertion batch 9),Passed,00:00:00.0434716,31302,2
Markers.InsertsInsideComment (correctness) (assertion batch 15),Passed,00:00:00.0434202,65580,2
Markers.ReplaceHit (well-formedness) (assertion batch 22),Passed,00:00:00.0433419,59342,2
Markers.SubstituteLiteral (correctness) (assertion batch 13),Passed,00:00:00.0430065,28630,2
Markers.MarkerEnd (well-formedness) (assertion batch 10),Passed,00:00:00.0429583,45266,2
Markers.FindMarkerLeftmost (correctness) (assertion batch 2),Passed,00:00:00.0429458,64728,2
Markers.FirstInsideComment (correctness) (assertion batch 14),Passed,00:00:00.0427234,65949,2
Markers.FindMarkerLeftmost (correctness) (assertion batch 4),Passed,00:00:00.0422850,43225,2
Markers.FirstAtComment (correctness) (assertion batch 14),Passed,00:00:00.0422186,63408,2
Markers.SlashesFindInside (correctness) (assertion batch 16),Passed,00:00:00.0421500,53496,2
Markers.SlashesMatchAfterOpening (correctness) (assertion batch 14),Passed,00:00:00.0421091,44714,2
Markers.SplitsForced (correctness) (assertion batch 1),Passed,00:00:00.0414833,36661,2
Markers.CommentOpenFindsComment (correctness) (assertion batch 15),Passed,00:00:00.0414632,63259,2
Markers.MarkerEndMeans (correctness) (assertion batch 23),Passed,00:00:00.0414515,78247,2
Markers.InsertsBeforeComment (correctness) (assertion batch 6),Passed,00:00:00.0414213,64573,2
Markers.GreedySplits (correctness) (assertion batch 20),Passed,00:00:00.0413335,57435,2
Markers.SlashesFindInside (correctness) (assertion batch 22),Passed,00:00:00.0413297,54312,2
Markers.InsertsBeforeComment (correctness) (assertion batch 8),Passed,00:00:00.0411836,64097,2
Markers.InsertsInsideComment (correctness) (assertion batch 12),Passed,00:00:00.0411517,67319,2
Markers.SlashesMissStar (correctness) (assertion batch 17),Passed,00:00:00.0410541,36280,2
Markers.CommentOpenMatches (correctness) (assertion batch 15),Passed,00:00:00.0409468,77964,2
Markers.CommentOpenMatches (correctness) (assertion batch 2),Passed,00:00:00.0409321,58251,2
Markers.InsertTemplate (correctness) (assertion batch 2),Passed,00:00:00.0408938,64533,2
Markers.InsertsInsideComment (correctness) (assertion batch 14),Passed,00:00:00.0407917,65349,2
Markers.FirstInsideComment (correctness) (assertion batch 2),Passed,00:00:00.0407243,59431,2
Markers.PadAfterWord (correctness) (assertion batch 14),Passed,00:00:00.0405547,76072,2
Markers.GreedySplits (correctness) (assertion batch 25),Passed,00:00:00.0405515,57338,2
Markers.FirstInsideComment (correctness) (assertion batch 9),Passed,00:00:00.0405241,65254,2
Markers.FirstInsideComment (correctness) (assertion batch 4),Passed,00:00:00.0404619,59648,2
Markers.GreedySplits (correctness) (assertion batch 33),Passed,00:00:00.0403573,62130,2
Markers.FirstAtComment (correctness) (assertion batch 1),Passed,00:00:00.0402828,61417,2
Markers.FirstInsideComment (correctness) (assertion batch 10),Passed,00:00:00.0402529,61410,2
Markers.ScriptComments (correctness) (assertion batch 10),Passed,00:00:00.0401781,101422,2
Markers.FirstInsideComment (correctness) (assertion batch 12),Passed,00:00:00.0401205,61630,2
Markers.SlashesFindInside (correctness) (assertion batch 28),Passed,00:00:00.0400407,54919,2
Markers.MarkerEnd (well-formedness) (assertion batch 14),Passed,00:00:00.0400387,55828,2
Markers.MarkersWellFormed (correctness) (assertion batch 2),Passed,00:00:00.0397885,32386,2
Markers.InsertsBeforeComment (correctness) (assertion batch 2),Passed,00:00:00.0397005,54661,2
Markers.InsertsInsideComment (correctness) (assertion batch 13),Passed,00:00:00.0396737,64879,2
Markers.MarkerEndMeans (correctness) (assertion batch 14),Passed,00:00:00.0396731,76279,2
Markers.MarkerEnd (well-formedness) (assertion batch 17),Passed,00:00:00.0396099,46072,2
Markers.ScriptComments (correctness) (assertion batch 12),Passed,00:00:00.0395993,108686,2
Markers.FirstAtComment (correctness) (assertion batch 6),Passed,00:00:00.0393790,61250,2
Markers.MarkersWellFormed (correctness) (assertion batch 11),Passed,00:00:00.0393409,58515,2
Markers.SplitsForced (correctness) (assertion batch 35),Passed,00:00:00.0393346,102752,2
Markers.GreedySplits (correctness) (assertion batch 26),Passed,00:00:00.0392880,57268,2
Markers.GreedySplits (correctness) (assertion batch 30),Passed,00:00:00.0392712,60788,2
Markers.FindMarkerAt (correctness) (assertion batch 6),Passed,00:00:00.0390394,46692,2
Markers.InsertAtFound (correctness) (assertion batch 5),Passed,00:00:00.0389209,74675,2
Markers.SlashesMissOpening (correctness) (assertion batch 19),Passed,00:00:00.0389122,48098,2
Markers.ReplaceInserts (correctness) (assertion batch 7),Passed,00:00:00.0389119,71698,2
Markers.SplitsForced (well-formedness) (assertion batch 5),Passed,00:00:00.0388733,51914,2
Markers.InsertsInsideComment (correctness) (assertion batch 11),Passed,00:00:00.0387223,66908,2
Markers.FirstInsideComment (correctness) (assertion batch 11),Passed,00:00:00.0385387,61526,2
Markers.GreedySplits (correctness) (assertion batch 8),Passed,00:00:00.0384000,46827,2
Markers.SplitsForced (well-formedness) (assertion batch 1),Passed,00:00:00.0383902,34936,2
Markers.SlashesFindInside (correctness) (assertion batch 30),Passed,00:00:00.0383885,56397,2
Markers.FirstInsideComment (correctness) (assertion batch 8),Passed,00:00:00.0382730,60021,2
Markers.GreedySplits (correctness) (assertion batch 18),Passed,00:00:00.0382218,57392,2
Markers.PadAfterWord (well-formedness) (assertion batch 1),Passed,00:00:00.0381135,26583,2
Markers.MarkerEnd (well-formedness) (assertion batch 18),Passed,00:00:00.0380734,43780,2
Markers.SplitsForced (correctness) (assertion batch 2),Passed,00:00:00.0380646,35422,2
Markers.FindMarkerLeftmost (well-formedness) (assertion batch 5),Passed,00:00:00.0379258,48836,2
Markers.GreedySplits (correctness) (assertion batch 32),Passed,00:00:00.0379099,61363,2
Markers.FirstInsideComment (correctness) (assertion batch 13),Passed,00:00:00.0379026,65425,2
Markers.LeadEnd (well-formedness) (assertion batch 6),Passed,00:00:00.0378229,33046,2
Markers.ReplaceFirst (well-formedness) (assertion batch 4),Passed,00:00:00.0378056,53215,2
Markers.FindMarkerLeftmost (well-formedness) (assertion batch 7),Passed,00:00:00.0377966,50047,2
Markers.SplitsForced (correctness) (assertion batch 33),Passed,00:00:00.0377093,67512,2
Markers.MarkerEndMeans (correctness) (assertion batch 22),Passed,00:00:00.0377016,78038,2
Markers.FindMarkerLeftmost (well-formedness) (assertion batch 6),Passed,00:00:00.0376588,48917,2
Markers.GreedySplits (correctness) (assertion batch 19),Passed,00:00:00.0375914,57097,2
Markers.InsertsBeforeComment (correctness) (assertion batch 4),Passed,00:00:00.0374593,54902,2
Markers.SlashesMissStar (correctness) (assertion batch 9),Passed,00:00:00.0374239,37124,2
Markers.GreedySplits (correctness) (assertion batch 22),Passed,00:00:00.0372359,57401,2
Markers.SlashesFindInside (correctness) (assertion batch 24),Passed,00:00:00.0372301,54543,2
Markers.FirstInsideComment (correctness) (assertion batch 1),Passed,00:00:00.0370362,59297,2
Markers.FindMarkerLeftmost (well-formedness) (assertion batch 1),Passed,00:00:00.0369945,52059,2
Markers.FirstInsideComment (correctness) (assertion batch 7),Passed,00:00:00.0369757,59950,2
Markers.SplitsForced (well-formedness) (assertion batch 2),Passed,00:00:00.0367798,52057,2
Markers.InsertsBeforeComment (correctness) (assertion batch 3),Passed,00:00:00.0367663,54785,2
Markers.FindMarkerAt (correctness) (assertion batch 7),Passed,00:00:00.0366167,48549,2
Markers.MarkerEnd (well-formedness) (assertion batch 4),Passed,00:00:00.0365558,37580,2
Markers.FindMarkerAt (correctness) (assertion batch 8),Passed,00:00:00.0364458,47211,2
Markers.CommentOpenMatches (correctness) (assertion batch 13),Passed,00:00:00.0362839,49986,2
Markers.InsertAtFound (well-formedness) (assertion batch 4),Passed,00:00:00.0361874,54753,2
Markers.GreedySplits (correctness) (assertion batch 29),Passed,00:00:00.0361732,60679,2
Markers.SlashesMissOpening (correctness) (assertion batch 11),Passed,00:00:00.0361384,37947,2
Markers.MarkerEnd (well-formedness) (assertion batch 6),Passed,00:00:00.0360940,38418,2
Markers.GreedySplits (correctness) (assertion batch 21),Passed,00:00:00.0360604,57460,2
Markers.SplitsForced (correctness) (assertion batch 28),Passed,00:00:00.0360341,61668,2
Markers.SplitsForced (correctness) (assertion batch 10),Passed,00:00:00.0359205,37710,2
Markers.SlashesFindInside (correctness) (assertion batch 27),Passed,00:00:00.0358376,54875,2
Markers.FirstAtComment (correctness) (assertion batch 7),Passed,00:00:00.0358237,61517,2
Markers.InsertsBeforeComment (correctness) (assertion batch 5),Passed,00:00:00.0358153,55285,2
Markers.ReplaceInserts (correctness) (assertion batch 6),Passed,00:00:00.0357999,54913,2
Markers.SplitsForced (correctness) (assertion batch 16),Passed,00:00:00.0357171,38793,2
Markers.ReplaceHitInserts (correctness) (assertion batch 1),Passed,00:00:00.0356679,77108,2
Markers.SlashesFindInside (correctness) (assertion batch 31),Passed,00:00:00.0355431,56494,2
Markers.SlashesFindInside (correctness) (assertion batch 17),Passed,00:00:00.0355200,53524,2
Markers.ReplaceHit (well-formedness) (assertion batch 25),Passed,00:00:00.0354529,29801,2
Markers.FindMarker (well-formedness) (assertion batch 16),Passed,00:00:00.0354057,52204,2
Markers.ReplaceFirst (well-formedness) (assertion batch 3),Passed,00:00:00.0354053,53188,2
Markers.CommentPieces (correctness) (assertion batch 15),Passed,00:00:00.0352788,62316,2
Markers.MarkerEnd (well-formedness) (assertion batch 8),Passed,00:00:00.0352471,41692,2
Markers.FirstInsideComment (correctness) (assertion batch 3),Passed,00:00:00.0352367,59576,2
Markers.MarkersWellFormed (correctness) (assertion batch 10),Passed,00:00:00.0351588,53465,2
Markers.FirstAtComment (correctness) (assertion batch 10),Passed,00:00:00.0351564,62385,2
Markers.SplitsForced (correctness) (assertion batch 13),Passed,00:00:00.0349832,38215,2
Markers.FirstAtComment (well-formedness) (assertion batch 7),Passed,00:00:00.0349106,53560,2
Markers.FirstAtComment (correctness) (assertion batch 8),Passed,00:00:00.0347968,61704,2
Markers.SplitsForced (correctness) (assertion batch 37),Passed,00:00:00.0347409,59536,2
Markers.FirstInsideComment (correctness) (assertion batch 17),Passed,00:00:00.0345192,63356,2
Markers.CommentOpenFindsComment (correctness) (assertion batch 6),Passed,00:00:00.0345129,42700,2
Markers.FindMarker (well-formedness) (assertion batch 13),Passed,00:00:00.0344568,51745,2
Markers.FirstAtComment (well-formedness) (assertion batch 5),Passed,00:00:00.0344526,52958,2
Markers.FindMarker (well-formedness) (assertion batch 11),Passed,00:00:00.0344089,51786,2
Markers.InsertsBeforeComment (correctness) (assertion batch 1),Passed,00:00:00.0344016,54482,2
Markers.GreedySplits (correctness) (assertion batch 15),Passed,00:00:00.0343330,57391,2
Markers.SplitsForced (correctness) (assertion batch 20),Passed,00:00:00.0343322,53590,2
Markers.GreedySplits (correctness) (assertion batch 14),Passed,00:00:00.0342266,58408,2
Markers.FindMarkerAt (well-formedness) (assertion batch 3),Passed,00:00:00.0341294,46466,2
Markers.FirstAtComment (well-formedness) (assertion batch 6),Passed,00:00:00.0339937,52868,2
Markers.GreedySplits (correctness) (assertion batch 1),Passed,00:00:00.0338439,42460,2
Markers.FirstAtComment (well-formedness) (assertion batch 4),Passed,00:00:00.0338071,52366,2
Markers.SplitsForced (correctness) (assertion batch 36),Passed,00:00:00.0337957,59433,2
Markers.SlashesMatchAfterOpening (correctness) (assertion batch 8),Passed,00:00:00.0337696,36016,2
Markers.PadSpansTo (correctness) (assertion batch 5),Passed,00:00:00.0337065,29354,2
Markers.ReplaceInserts (correctness) (assertion batch 5),Passed,00:00:00.0336087,54762,2
Markers.SplitsForced (correctness) (assertion batch 32),Passed,00:00:00.0335589,69967,2
Markers.FindMarker (well-formedness) (assertion batch 12),Passed,00:00:00.0335177,52082,2
Markers.SlashesMatchAfterOpening (correctness) (assertion batch 7),Passed,00:00:00.0334891,35736,2
Markers.MarkersWellFormed (correctness) (assertion batch 1),Passed,00:00:00.0334831,28002,2
Markers.MarkerEndMeans (correctness) (assertion batch 29),Passed,00:00:00.0334505,45871,2
Markers.CommentOpenMatches (correctness) (assertion batch 12),Passed,00:00:00.0334391,50528,2
Markers.MarkerEnd (well-formedness) (assertion batch 2),Passed,00:00:00.0334159,38588,2
Markers.ScriptComments (correctness) (assertion batch 2),Passed,00:00:00.0331866,41721,2
Markers.GreedySplits (correctness) (assertion batch 24),Passed,00:00:00.0331307,57607,2
Markers.NoMarkerExtend (well-formedness) (assertion batch 4),Passed,00:00:00.0331246,46010,2
Markers.ScriptComments (correctness) (assertion batch 8),Passed,00:00:00.0330677,133234,2
Markers.ReplaceHit (well-formedness) (assertion batch 21),Passed,00:00:00.0330357,32912,2
Markers.PadAfterWord (correctness) (assertion batch 12),Passed,00:00:00.0329963,41528,2
Markers.SlashesFindInside (well-formedness) (assertion batch 6),Passed,00:00:00.0329568,53913,2
Markers.InsertsInsideComment (correctness) (assertion batch 1),Passed,00:00:00.0329109,56691,2
Markers.SlashesFindInside (correctness) (assertion batch 13),Passed,00:00:00.0328942,53159,2
Markers.FirstAtComment (correctness) (assertion batch 11),Passed,00:00:00.0328333,64278,2
Markers.LeadSpansTo (correctness) (assertion batch 1),Passed,00:00:00.0327946,31034,2
Markers.CommentOpenFindsComment (correctness) (assertion batch 16),Passed,00:00:00.0327117,57184,2
Markers.CommentOpenMatches (well-formedness) (assertion batch 3),Passed,00:00:00.0325315,43595,2
Markers.GreedySplits (correctness) (assertion batch 10),Passed,00:00:00.0324575,44885,2
Markers.SplitsForced (correctness) (assertion batch 23),Passed,00:00:00.0324416,55188,2
Markers.SplitsForced (correctness) (assertion batch 29),Passed,00:00:00.0324285,58347,2
Markers.ScriptComments (correctness) (assertion batch 9),Passed,00:00:00.0323826,100055,2
Markers.GreedySplits (correctness) (assertion batch 11),Passed,00:00:00.0323675,49139,2
Markers.SlashesFindInside (correctness) (assertion batch 19),Passed,00:00:00.0323286,53727,2
Markers.FindMarker (well-formedness) (assertion batch 14),Passed,00:00:00.0323264,51878,2
Markers.NoMarkerExtend (well-formedness) (assertion batch 7),Passed,00:00:00.0323245,47523,2
Markers.MarkerEnd (well-formedness) (assertion batch 7),Passed,00:00:00.0323225,41241,2
Markers.GreedySplits (correctness) (assertion batch 23),Passed,00:00:00.0322450,57401,2
Markers.InsertBeforeMarker (well-formedness) (assertion batch 4),Passed,00:00:00.0321705,53215,2
Markers.FindMarker (well-formedness) (assertion batch 5),Passed,00:00:00.0321533,42145,2
Markers.MarkerEnd (well-formedness) (assertion batch 12),Passed,00:00:00.0321474,47227,2
Markers.ReplaceFirst (well-formedness) (assertion batch 2),Passed,00:00:00.0321184,8037,2
Markers.MarkersWellFormed (correctness) (assertion batch 7),Passed,00:00:00.0321075,55596,2
Markers.ReplaceInserts (correctness) (assertion batch 4),Passed,00:00:00.0320873,56532,2
Markers.CommentPieces (correctness) (assertion batch 11),Passed,00:00:00.0319900,47073,2
Markers.FirstAtComment (correctness) (assertion batch 9),Passed,00:00:00.0319865,63823,2
Markers.ReplaceInserts (correctness) (assertion batch 3),Passed,00:00:00.0319678,56379,2
Markers.FindMarker (well-formedness) (assertion batch 19),Passed,00:00:00.0319677,49870,2
Markers.SlashesMatchAfterOpening (correctness) (assertion batch 10),Passed,00:00:00.0319234,39333,2
Markers.SlashesFindInside (correctness) (assertion batch 29),Passed,00:00:00.0318400,56304,2
Markers.GreedySplits (correctness) (assertion batch 12),Passed,00:00:00.0317269,53458,2
Markers.SlashesMissStar (well-formedness) (assertion batch 3),Passed,00:00:00.0317081,26387,2
Markers.SlashesMissStar (correctness) (assertion batch 10),Passed,00:00:00.0316760,39520,2
Markers.SplitsForced (correctness) (assertion batch 26),Passed,00:00:00.0316612,55892,2
Markers.SplitsForced (well-formedness) (assertion batch 4),Passed,00:00:00.0316538,54509,2
Markers.FindMarkerLeftmost (well-formedness) (assertion batch 3),Passed,00:00:00.0316363,52460,2
Markers.InsertsInsideComment (correctness) (assertion batch 2),Passed,00:00:00.0316121,55389,2
Markers.CommentOpenMatches (well-formedness) (assertion batch 5),Passed,00:00:00.0315651,45624,2
Markers.InsertsInsideComment (correctness) (assertion batch 5),Passed,00:00:00.0315370,55740,2
Markers.FindMarkerAt (correctness) (assertion batch 4),Passed,00:00:00.0315368,46403,2
Markers.SlashesFindInside (correctness) (assertion batch 18),Passed,00:00:00.0315306,53510,2
Markers.GreedySplits (correctness) (assertion batch 13),Passed,00:00:00.0312745,53818,2
Markers.Splits (well-formedness),Passed,00:00:00.0312191,32556,2
Markers.SlashesMatchAfterOpening (correctness) (assertion batch 13),Passed,00:00:00.0311331,44587,2
Markers.SlashesMissStar (correctness) (assertion batch 15),Passed,00:00:00.0310308,35327,2
Markers.SplitsForced (correctness) (assertion batch 25),Passed,00:00:00.0310260,55689,2
Markers.MarkerEndMeans (correctness) (assertion batch 1),Passed,00:00:00.0309792,17987,2
Markers.NoMarkerExtend (well-formedness) (assertion batch 8),Passed,00:00:00.0309607,46160,2
Markers.SlashesFindInside (well-formedness) (assertion batch 5),Passed,00:00:00.0308148,51968,2
Markers.ReplaceHit (well-formedness) (assertion batch 26),Passed,00:00:00.0307368,30183,2
Markers.CommentPieces (correctness) (assertion batch 16),Passed,00:00:00.0307094,72791,2
Markers.SlashesFindInside (correctness) (assertion batch 21),Passed,00:00:00.0306990,54295,2
BlockRegistry.RegisterWithoutMarkers (well-formedness) (assertion batch 9),Passed,00:00:00.0306105,18043,2
BlockRegistry.RegisterWithoutMarkers (well-formedness) (assertion batch 7),Passed,00:00:00.0305853,17685,2
Markers.InsertsInsideComment (correctness) (assertion batch 6),Passed,00:00:00.0305648,55820,2
Markers.FindMarker (well-formedness) (assertion batch 10),Passed,00:00:00.0305572,50054,2
Markers.ScriptComments (correctness) (assertion batch 7),Passed,00:00:00.0305285,126838,2
Markers.LeadEnd (well-formedness) (assertion batch 8),Passed,00:00:00.0304859,33592,2
Markers.FindMarker (well-formedness) (assertion batch 7),Passed,00:00:00.0304702,44982,2
Markers.SplitsForced (correctness) (assertion batch 12),Passed,00:00:00.0304631,38001,2
Markers.SlashesFindInside (correctness) (assertion batch 23),Passed,00:00:00.0303355,54440,2
Markers.NoMarkerExtend (well-formedness) (assertion batch 6),Passed,00:00:00.0302715,45630,2
Markers.MarkerEnd (well-formedness) (assertion batch 9),Passed,00:00:00.0301928,42349,2
Markers.CommentOpenMatches (correctness) (assertion batch 14),Passed,00:00:00.0301912,49969,2
Markers.SlashesMissOpening (correctness) (assertion batch 16),Passed,00:00:00.0301877,35941,2
Markers.CommentOpenMatches (correctness) (assertion batch 1),Passed,00:00:00.0301261,44742,2
Markers.SkipRun (well-formedness) (assertion batch 7),Passed,00:00:00.0298942,17465,2
Markers.ReplaceHit (well-formedness) (assertion batch 24),Passed,00:00:00.0298845,29574,2
Markers.FindMarker (well-formedness) (assertion batch 8),Passed,00:00:00.0298491,49596,2
Markers.LeadEnd (well-formedness) (assertion batch 11),Passed,00:00:00.0294914,33026,2
Markers.MarkersWellFormed (correctness) (assertion batch 3),Passed,00:00:00.0294295,28726,2
Markers.SlashesMissStar (correctness) (assertion batch 1),Passed,00:00:00.0294125,27764,2
Markers.SlashesMatchAfterOpening (correctness) (assertion batch 11),Passed,00:00:00.0293030,49270,2
Markers.LeadSpansTo (correctness) (assertion batch 6),Passed,00:00:00.0292690,36736,2
Markers.PadAfterWord (correctness) (assertion batch 4),Passed,00:00:00.0291994,38730,2
Markers.SlashesFindInside (well-formedness) (assertion batch 2),Passed,00:00:00.0291111,31329,2
Markers.FindMarkerAt (correctness) (assertion batch 3),Passed,00:00:00.0290628,46332,2
Markers.InsertAtFound (well-formedness) (assertion batch 3),Passed,00:00:00.0290460,58169,2
Markers.GreedySplits (correctness) (assertion batch 5),Passed,00:00:00.0289896,45390,2
Markers.SlashesMatchAfterOpening (correctness) (assertion batch 17),Passed,00:00:00.0289585,47828,2
Markers.InsertsInsideComment (correctness) (assertion batch 4),Passed,00:00:00.0289276,55634,2
Markers.SplitsForced (correctness) (assertion batch 3),Passed,00:00:00.0288877,35792,2
Markers.PadAfterWord (correctness) (assertion batch 6),Passed,00:00:00.0288425,30657,2
Markers.FindMarkerAt (correctness) (assertion batch 2),Passed,00:00:00.0288406,46992,2
Markers.PadAfterWord (correctness) (assertion batch 7),Passed,00:00:00.0288358,30507,2
Markers.CommentOpenFindsComment (correctness) (assertion batch 5),Passed,00:00:00.0287985,42557,2
Markers.InsertsInsideComment (correctness) (assertion batch 3),Passed,00:00:00.0287976,55523,2
Markers.LeadEnd (well-formedness) (assertion batch 10),Passed,00:00:00.0286200,32872,2
Markers.MarkerEndMeans (correctness) (assertion batch 30),Passed,00:00:00.0285181,46648,2
Markers.SlashesMissStar (correctness) (assertion batch 6),Passed,00:00:00.0285142,29163,2
Markers.LeadSpansTo (correctness) (assertion batch 4),Passed,00:00:00.0284782,38917,2
Markers.CommentOpenMatches (correctness) (assertion batch 3),Passed,00:00:00.0283947,57361,2
Markers.FindMarkerAt (correctness) (assertion batch 5),Passed,00:00:00.0283944,46559,2
Markers.LeadEnd (well-formedness) (assertion batch 7),Passed,00:00:00.0283941,33200,2
Markers.ScriptComments (well-formedness) (assertion batch 1),Passed,00:00:00.0283763,89544,2
Markers.FindMarker (well-formedness) (assertion batch 4),Passed,00:00:00.0283666,42142,2
Markers.LeadEnd (well-formedness) (assertion batch 9),Passed,00:00:00.0283138,34209,2
Markers.SlashesMatchAfterOpening (correctness) (assertion batch 4),Passed,00:00:00.0282961,36738,2
Markers.SlashesMatchAfterOpening (correctness) (assertion batch 12),Passed,00:00:00.0282532,44436,2
Markers.SplitsForced (correctness) (assertion batch 27),Passed,00:00:00.0282416,56128,2
Markers.CommentOpenMatches (correctness) (assertion batch 9),Passed,00:00:00.0282170,42795,2
Markers.PadAfterWord (correctness) (assertion batch 9),Passed,00:00:00.0281978,33538,2
Markers.InsertsInsideComment (correctness) (assertion batch 8),Passed,00:00:00.0281589,56319,2
Markers.SlashesMatchAfterOpening (correctness) (assertion batch 16),Passed,00:00:00.0281566,42264,2
Markers.InsertsInsideComment (correctness) (assertion batch 10),Passed,00:00:00.0281098,56894,2
Markers.SlashesMissOpening (correctness) (assertion batch 18),Passed,00:00:00.0280998,36931,2
Markers.InsertBeforeMarker (well-formedness) (assertion batch 3),Passed,00:00:00.0280332,53188,2
Markers.SlashesMissOpening (correctness) (assertion batch 5),Passed,00:00:00.0279973,31345,2
Markers.SplitsForced (correctness) (assertion batch 24),Passed,00:00:00.0279527,55537,2
Markers.CommentPieces (correctness) (assertion batch 32),Passed,00:00:00.0279424,34623,2
Markers.LeadSpansTo (well-formedness) (assertion batch 3),Passed,00:00:00.0279204,31345,2
Markers.SplitsForced (well-formedness) (assertion batch 3),Passed,00:00:00.0278800,52720,2
Markers.FindMarker (well-formedness) (assertion batch 9),Passed,00:00:00.0278272,50031,2
Markers.ReplaceHit (well-formedness) (assertion batch 15),Passed,00:00:00.0278061,30297,2
Markers.CommentOpenMatches (correctness) (assertion batch 10),Passed,00:00:00.0277848,51666,2
Markers.SlashesFindInside (correctness) (assertion batch 3),Passed,00:00:00.0277787,29998,2
Markers.ReplaceHit (well-formedness) (assertion batch 11),Passed,00:00:00.0277367,29536,2
Markers.ReplaceHit (well-formedness) (assertion batch 20),Passed,00:00:00.0276791,48669,2
Markers.PadAfterWord (correctness) (assertion batch 3),Passed,00:00:00.0276771,23494,2
Markers.CommentPieces (correctness) (assertion batch 22),Passed,00:00:00.0276705,32537,2
Markers.SplitsForced (correctness) (assertion batch 8),Passed,00:00:00.0276702,37158,2
Markers.PadAfterWord (well-formedness) (assertion batch 2),Passed,00:00:00.0276363,26342,2
Markers.SplitsForced (correctness) (assertion batch 22),Passed,00:00:00.0276260,55083,2
Markers.SplitsForced (correctness) (assertion batch 15),Passed,00:00:00.0276123,38652,2
Markers.NoMarkerExtend (well-formedness) (assertion batch 3),Passed,00:00:00.0275121,44769,2
Markers.SlashesMissStar (correctness) (assertion batch 11),Passed,00:00:00.0275009,37952,2
Markers.CommentOpenMatches (correctness) (assertion batch 8),Passed,00:00:00.0274840,43819,2
Markers.SlashesFindInside (correctness) (assertion batch 20),Passed,00:00:00.0274196,53824,2
Markers.CommentPieces (correctness) (assertion batch 8),Passed,00:00:00.0274014,33919,2
Markers.CommentPieces (correctness) (assertion batch 14),Passed,00:00:00.0273992,38516,2
Markers.SlashesMissStar (correctness) (assertion batch 16),Passed,00:00:00.0273505,35745,2
Markers.GreedySplits (correctness) (assertion batch 9),Passed,00:00:00.0273186,44719,2
Markers.SplitsForced (correctness) (assertion batch 34),Passed,00:00:00.0272759,60419,2
Markers.CommentPieces (correctness) (assertion batch 7),Passed,00:00:00.0272726,33600,2
Markers.SlashesMissOpening (correctness) (assertion batch 15),Passed,00:00:00.0272608,35762,2
Markers.CommentPieces (correctness) (assertion batch 30),Passed,00:00:00.0272438,42515,2
Markers.GreedySplits (well-formedness) (assertion batch 2),Passed,00:00:00.0272040,42251,2
Markers.CommentOpenMatches (correctness) (assertion batch 5),Passed,00:00:00.0271857,42513,2
Markers.ScriptComments (correctness) (assertion batch 6),Passed,00:00:00.0270513,78827,2
Markers.SlashesMissOpening (correctness) (assertion batch 12),Passed,00:00:00.0269990,38636,2
Markers.PadEnd (well-formedness) (assertion batch 3),Passed,00:00:00.0269211,22644,2
BlockRegistry.RegisterWithoutMarkers (well-formedness) (assertion batch 8),Passed,00:00:00.0267313,20336,2
Markers.SlashesFindInside (correctness) (assertion batch 12),Passed,00:00:00.0266451,34158,2
Markers.LeadEnd (well-formedness) (assertion batch 1),Passed,00:00:00.0265529,29017,2
Markers.ReplaceHit (well-formedness) (assertion batch 14),Passed,00:00:00.0264591,30833,2
Markers.FindMarker (well-formedness) (assertion batch 15),Passed,00:00:00.0263496,52182,2
BlockRegistry.RegisterWithoutMarkers (correctness) (assertion batch 1),Passed,00:00:00.0263061,17517,2
Markers.ReplaceHit (well-formedness) (assertion batch 10),Passed,00:00:00.0263052,29184,2
Markers.SlashesMissStar (well-formedness) (assertion batch 2),Passed,00:00:00.0262476,26790,2
Markers.SlashesMissStar (correctness) (assertion batch 4),Passed,00:00:00.0262469,28541,2
Markers.CommentPieces (correctness) (assertion batch 29),Passed,00:00:00.0261316,35342,2
Markers.ReplaceHit (well-formedness) (assertion batch 18),Passed,00:00:00.0261174,31472,2
Markers.InsertsInsideComment (correctness) (assertion batch 7),Passed,00:00:00.0261045,56041,2
Markers.FirstInsideComment (well-formedness) (assertion batch 2),Passed,00:00:00.0261004,30537,2
Markers.SlashesMatchAfterOpening (well-formedness) (assertion batch 2),Passed,00:00:00.0260908,31755,2
Markers.SlashesMissStar (correctness) (assertion batch 2),Passed,00:00:00.0258880,26921,2
Markers.InsertsInsideComment (well-formedness) (assertion batch 2),Passed,00:00:00.0258389,28237,2
Markers.SlashesMissOpening (correctness) (assertion batch 17),Passed,00:00:00.0258174,36475,2
Markers.LeadForced (well-formedness) (assertion batch 3),Passed,00:00:00.0257793,34886,2
Markers.PadSpansTo (correctness) (assertion batch 2),Passed,00:00:00.0257723,28492,2
Markers.SlashesMissStar (correctness) (assertion batch 5),Passed,00:00:00.0257065,28744,2
Markers.FindMarker (well-formedness) (assertion batch 1),Passed,00:00:00.0256373,44638,2
Markers.SplitsForced (correctness) (assertion batch 21),Passed,00:00:00.0256211,54996,2
BlockRegistry.RegisterWithoutMarkers (correctness) (assertion batch 2),Passed,00:00:00.0255446,17858,2
Markers.GreedySplits (correctness) (assertion batch 6),Passed,00:00:00.0255396,45546,2
Markers.GreedySplits (correctness) (assertion batch 7),Passed,00:00:00.0254954,46271,2
Markers.ScriptComments (well-formedness) (assertion batch 4),Passed,00:00:00.0254718,81216,2
Markers.ReplaceHit (well-formedness) (assertion batch 8),Passed,00:00:00.0254264,33452,2
Markers.InsertAfterOpening (correctness) (assertion batch 2),Passed,00:00:00.0252418,20480,2
Markers.CommentPieces (well-formedness) (assertion batch 1),Passed,00:00:00.0252337,28688,2
Markers.ReplaceHitInserts (correctness) (assertion batch 13),Passed,00:00:00.0252185,53836,2
Markers.SlashesFindInside (correctness) (assertion batch 5),Passed,00:00:00.0252174,33427,2
Markers.FindMarkerAt (well-formedness) (assertion batch 2),Passed,00:00:00.0251993,45122,2
Markers.ReplaceHit (well-formedness) (assertion batch 5),Passed,00:00:00.0251871,32569,2
Markers.CommentOpenFindsComment (well-formedness),Passed,00:00:00.0251511,30921,2
Markers.FindMarker (well-formedness) (assertion batch 3),Passed,00:00:00.0251330,42432,2
Markers.InsertAfterOpening (correctness) (assertion batch 1),Passed,00:00:00.0251103,36584,2
Markers.PadEnd (well-formedness) (assertion batch 1),Passed,00:00:00.0251099,12950,2
Markers.CommentOpenMatches (correctness) (assertion batch 6),Passed,00:00:00.0250244,42556,2
Markers.ReplaceHit (well-formedness) (assertion batch 6),Passed,00:00:00.0250101,36123,2
Markers.FindMarkerLeftmost (correctness) (assertion batch 7),Passed,00:00:00.0250035,43035,2
Markers.SubstituteLiteral (correctness) (assertion batch 16),Passed,00:00:00.0249616,35613,2
Markers.ScriptComments (well-formedness) (assertion batch 3),Passed,00:00:00.0249563,79670,2
Markers.CommentOpenMatches (well-formedness) (assertion batch 4),Passed,00:00:00.0249178,43683,2
Markers.CommentPieces (correctness) (assertion batch 18),Passed,00:00:00.0248792,45741,2
Markers.PadSpansTo (correctness) (assertion batch 4),Passed,00:00:00.0248206,34495,2
Markers.SplitsForced (correctness) (assertion batch 14),Passed,00:00:00.0248126,38409,2
Markers.CommentPieces (correctness) (assertion batch 25),Passed,00:00:00.0247617,31386,2
Markers.LeadEnd (well-formedness) (assertion batch 2),Passed,00:00:00.0247440,29257,2
Markers.InsertsInsideComment (well-formedness) (assertion batch 4),Passed,00:00:00.0246409,28719,2
Markers.ReplaceHit (well-formedness) (assertion batch 9),Passed,00:00:00.0245876,28888,2
Markers.LeadSpansTo (well-formedness) (assertion batch 2),Passed,00:00:00.0244609,31283,2
Markers.CommentOpenFindsComment (correctness) (assertion batch 14),Passed,00:00:00.0243653,37026,2
Markers.SlashesMissOpening (correctness) (assertion batch 9),Passed,00:00:00.0243639,35460,2
Markers.NoMarkerExtend (well-formedness) (assertion batch 5),Passed,00:00:00.0243590,45390,2
Markers.SplitsForced (correctness) (assertion batch 5),Passed,00:00:00.0243312,36731,2
Markers.PadEnd (well-formedness) (assertion batch 4),Passed,00:00:00.0242726,25919,2
Markers.LeadForced (correctness) (assertion batch 3),Passed,00:00:00.0242475,34224,2
Markers.SlashesMissOpening (correctness) (assertion batch 8),Passed,00:00:00.0242136,38297,2
Markers.ScriptComments (well-formedness) (assertion batch 2),Passed,00:00:00.0242120,79113,2
Markers.CommentOpenMatches (correctness) (assertion batch 7),Passed,00:00:00.0241942,42795,2
Markers.SlashesFindInside (correctness) (assertion batch 6),Passed,00:00:00.0241688,33535,2
Markers.SplitsForced (correctness) (assertion batch 4),Passed,00:00:00.0240705,36900,2
Markers.InsertsBeforeComment (well-formedness) (assertion batch 2),Passed,00:00:00.0239250,29047,2
Markers.SlashesMatchAfterOpening (correctness) (assertion batch 9),Passed,00:00:00.0238915,36581,2
Markers.SlashesMatchAfterOpening (correctness) (assertion batch 5),Passed,00:00:00.0237562,35505,2
Markers.SlashesFindInside (correctness) (assertion batch 9),Passed,00:00:00.0237277,34050,2
Markers.FindMarkerLeftmost (correctness) (assertion batch 6),Passed,00:00:00.0237059,42882,2
Markers.SlashesMatchAfterOpening (correctness) (assertion batch 1),Passed,00:00:00.0236310,29617,2
Markers.CommentOpenFindsComment (correctness) (assertion batch 13),Passed,00:00:00.0235892,36291,2
Markers.ReplaceHit (well-formedness) (assertion batch 7),Passed,00:00:00.0235546,31404,2
Markers.SplitsForced (correctness) (assertion batch 17),Passed,00:00:00.0235103,39097,2
Markers.SlashesMissStar (correctness) (assertion batch 13),Passed,00:00:00.0234378,34959,2
Markers.SlashesMissStar (correctness) (assertion batch 3),Passed,00:00:00.0233827,29894,2
Markers.SkipRun (well-formedness) (assertion batch 3),Passed,00:00:00.0232070,14331,2
Markers.GreedySplits (well-formedness) (assertion batch 3),Passed,00:00:00.0230707,42321,2
Markers.ReplaceHit (well-formedness) (assertion batch 19),Passed,00:00:00.0230445,33876,2
Markers.SlashesFindInside (correctness) (assertion batch 1),Passed,00:00:00.0230432,29762,2
Markers.PadAfterWord (correctness) (assertion batch 11),Passed,00:00:00.0230389,29987,2
Markers.SlashesMissOpening (correctness) (assertion batch 10),Passed,00:00:00.0230013,37744,2
Markers.GreedySplits (correctness) (assertion batch 2),Passed,00:00:00.0229782,43916,2
Markers.LeadForced (correctness) (assertion batch 4),Passed,00:00:00.0229188,39990,2
Markers.CommentPieces (correctness) (assertion batch 21),Passed,00:00:00.0228614,32223,2
Markers.LeadForced (correctness) (assertion batch 9),Passed,00:00:00.0228284,33024,2
Markers.SlashesFindInside (correctness) (assertion batch 8),Passed,00:00:00.0227650,33674,2
Markers.SplitsForced (correctness) (assertion batch 6),Passed,00:00:00.0227257,36842,2
Markers.SlashesMissOpening (well-formedness) (assertion batch 2),Passed,00:00:00.0227230,25924,2
Markers.SlashesMissOpening (correctness) (assertion batch 4),Passed,00:00:00.0226717,27833,2
Markers.CommentOpenFindsComment (correctness) (assertion batch 1),Passed,00:00:00.0226328,29642,2
Markers.MarkerEnd (well-formedness) (assertion batch 3),Passed,00:00:00.0224989,12187,2
Markers.WellFormed (well-formedness) (assertion batch 1),Passed,00:00:00.0223978,9375,2
Markers.CommentOpenFindsComment (correctness) (assertion batch 9),Passed,00:00:00.0222259,37546,2
Markers.InsertAfterOpening (correctness) (assertion batch 3),Passed,00:00:00.0221770,26640,2
Markers.SlashesMissOpening (correctness) (assertion batch 1),Passed,00:00:00.0221283,27730,2
Markers.LeadSpansTo (correctness) (assertion batch 8),Passed,00:00:00.0221274,37939,2
Markers.LeadForced (correctness) (assertion batch 5),Passed,00:00:00.0221053,39538,2
Markers.CommentPieces (correctness) (assertion batch 6),Passed,00:00:00.0220469,26080,2
Markers.SubstituteLiteral (correctness) (assertion batch 9),Passed,00:00:00.0220043,26687,2
Markers.ScriptComments (correctness) (assertion batch 5),Passed,00:00:00.0219692,80265,2
Markers.CommentPieces (correctness) (assertion batch 19),Passed,00:00:00.0219548,32641,2
Markers.PadAfterWord (correctness) (assertion batch 10),Passed,00:00:00.0219064,33750,2
Markers.CommentOpenFindsComment (correctness) (assertion batch 11),Passed,00:00:00.0216992,39827,2
Markers.InsertsBeforeComment (well-formedness) (assertion batch 3),Passed,00:00:00.0215459,32144,2
Markers.FindMarker (well-formedness) (assertion batch 6),Passed,00:00:00.0214834,42216,2
Markers.ReplaceHit (well-formedness) (assertion batch 23),Passed,00:00:00.0214424,28947,2
Markers.CommentPieces (correctness) (assertion batch 24),Passed,00:00:00.0214020,31353,2
Markers.ReplaceHitInserts (correctness) (assertion batch 8),Passed,00:00:00.0213871,23502,2
Markers.SplitsForced (correctness) (assertion batch 9),Passed,00:00:00.0213858,37297,2
Markers.CommentPieces (correctness) (assertion batch 31),Passed,00:00:00.0213463,34482,2
Markers.LeadForced (correctness) (assertion batch 10),Passed,00:00:00.0212214,36588,2
Markers.SlashesMatchAfterOpening (correctness) (assertion batch 2),Passed,00:00:00.0211495,29759,2
Markers.RunSkipped (well-formedness) (assertion batch 4),Passed,00:00:00.0210886,18253,2
Markers.LeadForced (correctness) (assertion batch 7),Passed,00:00:00.0209696,40884,2
Markers.RunEnd (correctness) (assertion batch 2),Passed,00:00:00.0209573,24205,2
Markers.LeadSpansTo (correctness) (assertion batch 5),Passed,00:00:00.0208933,39510,2
Markers.SplitsForced (correctness) (assertion batch 7),Passed,00:00:00.0208515,36959,2
Markers.RunSkipped (well-formedness) (assertion batch 3),Passed,00:00:00.0207931,17724,2
Markers.CommentOpenFindsComment (correctness) (assertion batch 8),Passed,00:00:00.0207701,37520,2
Markers.SlashesFindInside (correctness) (assertion batch 4),Passed,00:00:00.0207264,33316,2
Markers.SlashesFindInside (correctness) (assertion batch 2),Passed,00:00:00.0207142,29906,2
Markers.CommentOpenFindsComment (correctness) (assertion batch 12),Passed,00:00:00.0206925,36110,2
Markers.ReplaceHitInserts (correctness) (assertion batch 12),Passed,00:00:00.0206841,31308,2
Markers.SlashesFindInside (correctness) (assertion batch 11),Passed,00:00:00.0206760,34057,2
Markers.CommentPieces (correctness) (assertion batch 5),Passed,00:00:00.0206133,25883,2
Markers.SlashesMissStar (correctness) (assertion batch 14),Passed,00:00:00.0205560,35141,2
Markers.OccursInMiddle (correctness) (assertion batch 5),Passed,00:00:00.0204227,12847,2
Markers.CommentPieces (correctness) (assertion batch 27),Passed,00:00:00.0203313,32895,2
Markers.SlashesMatchAfterOpening (correctness) (assertion batch 3),Passed,00:00:00.0202271,29860,2
Markers.SkipRun (well-formedness) (assertion batch 2),Passed,00:00:00.0202170,14228,2
Markers.CommentPieces (correctness) (assertion batch 10),Passed,00:00:00.0201626,35337,2
Markers.LeadSpansTo (correctness) (assertion batch 7),Passed,00:00:00.0201218,37222,2
Markers.CommentPieces (correctness) (assertion batch 3),Passed,00:00:00.0201132,24957,2
Markers.SlashesFindInside (correctness) (assertion batch 10),Passed,00:00:00.0201095,33837,2
Markers.CommentOpenFindsComment (correctness) (assertion batch 2),Passed,00:00:00.0199439,29784,2
Markers.SlashesMissOpening (correctness) (assertion batch 7),Passed,00:00:00.0199040,29858,2
Markers.OccursInMiddle (correctness) (assertion batch 2),Passed,00:00:00.0198870,7188,2
Markers.InsertTemplate (correctness) (assertion batch 1),Passed,00:00:00.0198778,24955,2
Markers.LeadForced (correctness) (assertion batch 6),Passed,00:00:00.0197482,35942,2
Markers.CommentPieces (correctness) (assertion batch 9),Passed,00:00:00.0193404,34092,2
Markers.InsertsInsideComment (well-formedness) (assertion batch 3),Passed,00:00:00.0193012,28761,2
Markers.ReplaceHitInserts (correctness) (assertion batch 11),Passed,00:00:00.0192694,31306,2
Markers.CommentPieces (well-formedness) (assertion batch 2),Passed,00:00:00.0192165,38209,2
Markers.InsertAfterOpening (correctness) (assertion batch 5),Passed,00:00:00.0191936,25543,2
Markers.SkipRun (well-formedness) (assertion batch 8),Passed,00:00:00.0190679,19210,2
Markers.FirstInsideComment (well-formedness) (assertion batch 3),Passed,00:00:00.0189803,31517,2
Markers.CommentOpenFindsComment (correctness) (assertion batch 3),Passed,00:00:00.0189733,29876,2
Markers.RunSkipped (well-formedness) (assertion batch 1),Passed,00:00:00.0189096,17131,2
Markers.InsertAfterOpening (correctness) (assertion batch 4),Passed,00:00:00.0188990,24925,2
Markers.PadEnd (well-formedness) (assertion batch 2),Passed,00:00:00.0188588,22389,2
Markers.RunSkipped (well-formedness) (assertion batch 2),Passed,00:00:00.0188464,17563,2
Markers.PadSpansTo (correctness) (assertion batch 1),Passed,00:00:00.0187971,12250,2
Markers.SlashesMissOpening (correctness) (assertion batch 2),Passed,00:00:00.0187656,27334,2
Markers.CommentPieces (correctness) (assertion batch 1),Passed,00:00:00.0187159,23583,2
Markers.CommentOpenFindsComment (correctness) (assertion batch 10),Passed,00:00:00.0186025,35298,2
Markers.SlashesFindInside (correctness) (assertion batch 7),Passed,00:00:00.0185596,33575,2
Markers.CommentPieces (correctness) (assertion batch 4),Passed,00:00:00.0185293,25537,2
Markers.ReplaceHitInserts (well-formedness) (assertion batch 4),Passed,00:00:00.0185142,20020,2
Markers.PadAfterWord (correctness) (assertion batch 1),Passed,00:00:00.0184998,23272,2
Markers.PadSpansTo (correctness) (assertion batch 3),Passed,00:00:00.0184332,28625,2
Markers.NoMarkerIn (well-formedness) (assertion batch 1),Passed,00:00:00.0183796,8311,2
Markers.SkipRun (well-formedness) (assertion batch 9),Passed,00:00:00.0183630,19046,2
Markers.CommentPieces (correctness) (assertion batch 20),Passed,00:00:00.0182402,30465,2
Markers.SplitsForced (correctness) (assertion batch 11),Passed,00:00:00.0181821,37875,2
Markers.RunSkipped (correctness) (assertion batch 1),Passed,00:00:00.0181063,36735,2
Markers.PadForced (correctness) (assertion batch 4),Passed,00:00:00.0181000,26634,2
Markers.ScriptComments (correctness) (assertion batch 1),Passed,00:00:00.0180349,30331,2
Markers.LeadEnd (well-formedness) (assertion batch 5),Passed,00:00:00.0180056,16722,2
Markers.Substitute (well-formedness) (assertion batch 27),Passed,00:00:00.0179991,14974,2
Markers.PadForced (correctness) (assertion batch 5),Passed,00:00:00.0179847,26787,2
Markers.ReplaceHit (well-formedness) (assertion batch 4),Passed,00:00:00.0178773,18623,2
Markers.RunEnd (well-formedness) (assertion batch 2),Passed,00:00:00.0178507,17274,2
Markers.CommentPieces (correctness) (assertion batch 26),Passed,00:00:00.0178157,31738,2
Markers.ReplaceHitInserts (well-formedness) (assertion batch 3),Passed,00:00:00.0177415,20020,2
Markers.OccursInMiddle (correctness) (assertion batch 4),Passed,00:00:00.0177088,12177,2
Markers.ReplaceHitInserts (correctness) (assertion batch 6),Passed,00:00:00.0176588,22835,2
Markers.LeadForced (well-formedness) (assertion batch 1),Passed,00:00:00.0176361,32166,2
Markers.LeadForced (well-formedness) (assertion batch 2),Passed,00:00:00.0176190,33236,2
Markers.SubstituteLiteral (correctness) (assertion batch 15),Passed,00:00:00.0173985,24799,2
Markers.InsertBeforeMarker (well-formedness) (assertion batch 1),Passed,00:00:00.0172921,7610,2
Markers.SkipRun (well-formedness) (assertion batch 6),Passed,00:00:00.0172376,17223,2
Markers.PadSpans (well-formedness),Passed,00:00:00.0172373,10460,2
Markers.RunEnd (correctness) (assertion batch 1),Passed,00:00:00.0172320,19181,2
Markers.ReplaceHit (well-formedness) (assertion batch 3),Passed,00:00:00.0171580,17293,2
Markers.SubstituteLiteral (correctness) (assertion batch 11),Passed,00:00:00.0171294,23340,2
Markers.CommentPieces (correctness) (assertion batch 2),Passed,00:00:00.0171093,24642,2
Markers.SubstituteLiteral (correctness) (assertion batch 12),Passed,00:00:00.0171076,26134,2
Markers.RunSkipped (correctness) (assertion batch 6),Passed,00:00:00.0170937,14700,2
Markers.MarkerEndMeans (well-formedness),Passed,00:00:00.0168072,17458,2
Markers.InsertAfterOpening (well-formedness) (assertion batch 2),Passed,00:00:00.0166382,18162,2
Markers.FirstAtComment (well-formedness) (assertion batch 3),Passed,00:00:00.0166322,24860,2
Markers.InsertAfterOpening (well-formedness) (assertion batch 1),Passed,00:00:00.0165235,19744,2
Markers.SlashesMissOpening (correctness) (assertion batch 6),Passed,00:00:00.0164147,29418,2
Markers.LeadEnd (well-formedness) (assertion batch 4),Passed,00:00:00.0163974,19298,2
Markers.GreedySplits (well-formedness) (assertion batch 1),Passed,00:00:00.0163864,12313,2
Markers.SlashesFindInside (well-formedness) (assertion batch 1),Passed,00:00:00.0163742,17201,2
Markers.RunEnd (well-formedness) (assertion batch 3),Passed,00:00:00.0163718,15069,2
Markers.PadForced (well-formedness) (assertion batch 1),Passed,00:00:00.0163619,20899,2
Markers.ReplaceHitInserts (correctness) (assertion batch 7),Passed,00:00:00.0162826,23355,2
Markers.Substitute (well-formedness) (assertion batch 15),Passed,00:00:00.0161622,8726,2
Markers.RunSkipped (correctness) (assertion batch 4),Passed,00:00:00.0160796,14436,2
Markers.FirstAtComment (well-formedness) (assertion batch 2),Passed,00:00:00.0158820,24374,2
Markers.SubstituteLiteral (correctness) (assertion batch 7),Passed,00:00:00.0158651,15555,2
Markers.ReplaceHit (well-formedness) (assertion batch 2),Passed,00:00:00.0158310,16174,2
Markers.ReplaceHitInserts (correctness) (assertion batch 3),Passed,00:00:00.0158044,20760,2
Markers.CommentPieces (correctness) (assertion batch 23),Passed,00:00:00.0156974,30964,2
Markers.Substitute (well-formedness) (assertion batch 21),Passed,00:00:00.0156893,10513,2
Markers.LeadForced (correctness) (assertion batch 8),Passed,00:00:00.0156510,33440,2
Markers.SubstituteLiteral (correctness) (assertion batch 8),Passed,00:00:00.0155983,15553,2
Markers.Substitute (well-formedness) (assertion batch 30),Passed,00:00:00.0155772,15276,2
Markers.ReplaceHit (well-formedness) (assertion batch 1),Passed,00:00:00.0155480,14992,2
Markers.Substitute (well-formedness) (assertion batch 10),Passed,00:00:00.0154754,7848,2
Markers.SkipRun (well-formedness) (assertion batch 5),Passed,00:00:00.0154619,14496,2
Markers.Substitute (well-formedness) (assertion batch 7),Passed,00:00:00.0154157,7930,2
Markers.ReplaceHitInserts (well-formedness) (assertion batch 2),Passed,00:00:00.0153569,19904,2
Markers.SkipRun (well-formedness) (assertion batch 4),Passed,00:00:00.0152985,14389,2
Markers.PadAfterWord (correctness) (assertion batch 8),Passed,00:00:00.0151714,28934,2
Markers.FirstAtComment (well-formedness) (assertion batch 1),Passed,00:00:00.0150429,23960,2
Markers.Substitute (well-formedness) (assertion batch 25),Passed,00:00:00.0150051,10867,2
Markers.ReplaceHitInserts (correctness) (assertion batch 2),Passed,00:00:00.0149915,19297,2
Markers.Substitute (well-formedness) (assertion batch 2),Passed,00:00:00.0148179,7082,2
Markers.ReplaceHitInserts (correctness) (assertion batch 5),Passed,00:00:00.0147474,22593,2
Markers.PadForced (correctness) (assertion batch 3),Passed,00:00:00.0146431,19721,2
Markers.PadForced (correctness) (assertion batch 2),Passed,00:00:00.0145747,19620,2
Markers.NoMarkerExtend (well-formedness) (assertion batch 2),Passed,00:00:00.0144863,12587,2
Markers.ReplaceHitInserts (well-formedness) (assertion batch 1),Passed,00:00:00.0144733,19904,2
Markers.OccursInMiddle (correctness) (assertion batch 6),Passed,00:00:00.0143975,12048,2
Markers.SubstituteLiteral (correctness) (assertion batch 10),Passed,00:00:00.0143486,23069,2
Markers.Substitute (well-formedness) (assertion batch 23),Passed,00:00:00.0142071,14606,2
Markers.Substitute (well-formedness) (assertion batch 26),Passed,00:00:00.0141023,12603,2
Markers.ReplaceInserts (correctness) (assertion batch 1),Passed,00:00:00.0140834,17524,2
Markers.Substitute (well-formedness) (assertion batch 3),Passed,00:00:00.0139463,7637,2
Markers.SubstituteLiteral (correctness) (assertion batch 6),Passed,00:00:00.0137784,19317,2
Markers.Substitute (well-formedness) (assertion batch 29),Passed,00:00:00.0137741,12621,2
Markers.WellFormed (well-formedness) (assertion batch 2),Passed,00:00:00.0136958,11028,2
Markers.Substitute (well-formedness) (assertion batch 8),Passed,00:00:00.0136262,10841,2
Markers.OccursInMiddle (correctness) (assertion batch 1),Passed,00:00:00.0135484,7256,2
Markers.InsertBeforeMarker (well-formedness) (assertion batch 2),Passed,00:00:00.0134910,8037,2
Markers.InsertAtFound (well-formedness) (assertion batch 1),Passed,00:00:00.0132785,15184,2
Markers.WordAt (well-formedness) (assertion batch 1),Passed,00:00:00.0132256,9982,2
Markers.SlashesMissStar (well-formedness) (assertion batch 1),Passed,00:00:00.0131858,17201,2
Markers.InsertAt (well-formedness) (assertion batch 1),Passed,00:00:00.0129867,14992,2
Markers.Substitute (well-formedness) (assertion batch 24),Passed,00:00:00.0128962,10008,2
Markers.Substitute (well-formedness) (assertion batch 20),Passed,00:00:00.0127700,9850,2
Markers.Substitute (well-formedness) (assertion batch 9),Passed,00:00:00.0127366,11197,2
Markers.RunSkipped (correctness) (assertion batch 5),Passed,00:00:00.0126751,14548,2
Markers.Substitute (well-formedness) (assertion batch 6),Passed,00:00:00.0125767,7472,2
Markers.ReplaceHitInserts (correctness) (assertion batch 4),Passed,00:00:00.0123638,20977,2
Markers.LeadSpans (well-formedness),Passed,00:00:00.0123354,7198,2
Markers.InsertAt (well-formedness) (assertion batch 2),Passed,00:00:00.0122937,14203,2
Markers.NoMarkerIn (well-formedness) (assertion batch 2),Passed,00:00:00.0122375,8464,2
Markers.Substitute (well-formedness) (assertion batch 11),Passed,00:00:00.0122216,8195,2
Markers.Substitute (well-formedness) (assertion batch 16),Passed,00:00:00.0121709,9478,2
Markers.SubstituteLiteral (correctness) (assertion batch 3),Passed,00:00:00.0120590,11215,2
Markers.Substitute (well-formedness) (assertion batch 19),Passed,00:00:00.0120186,13793,2
Markers.FindMarkerAt (well-formedness) (assertion batch 1),Passed,00:00:00.0119230,12940,2
Markers.Substitute (well-formedness) (assertion batch 17),Passed,00:00:00.0118380,10524,2
Markers.SlashesMissOpening (well-formedness) (assertion batch 1),Passed,00:00:00.0118068,17201,2
Markers.PadSpansTo (well-formedness),Passed,00:00:00.0117205,12426,2
Markers.RunSkipped (well-formedness) (assertion batch 5),Passed,00:00:00.0114837,9060,2
Markers.SubstituteLiteral (correctness) (assertion batch 18),Passed,00:00:00.0114349,11663,2
Markers.InsertsInsideComment (well-formedness) (assertion batch 1),Passed,00:00:00.0114233,18173,2
Markers.ReplaceInserts (correctness) (assertion batch 2),Passed,00:00:00.0113647,17882,2
Markers.Substitute (well-formedness) (assertion batch 1),Passed,00:00:00.0113107,5872,2
Markers.Substitute (well-formedness) (assertion batch 14),Passed,00:00:00.0111246,12019,2
Markers.Substitute (well-formedness) (assertion batch 18),Passed,00:00:00.0110708,12338,2
Markers.InsertAtFound (well-formedness) (assertion batch 2),Passed,00:00:00.0110078,15534,2
Markers.SubstituteLiteral (correctness) (assertion batch 1),Passed,00:00:00.0107476,12165,2
Markers.FindMarkerLeftmost (correctness) (assertion batch 1),Passed,00:00:00.0107096,12313,2
Markers.LeadEnd (well-formedness) (assertion batch 3),Passed,00:00:00.0107015,8743,2
Markers.FindMarkerLeftmost (well-formedness) (assertion batch 4),Passed,00:00:00.0106595,12420,2
Markers.CommentOpenMatches (well-formedness) (assertion batch 1),Passed,00:00:00.0105546,12725,2
Markers.NoMarkerExtend (well-formedness) (assertion batch 1),Passed,00:00:00.0104815,12438,2
Markers.Substitute (well-formedness) (assertion batch 12),Passed,00:00:00.0104005,8848,2
Markers.Substitute (well-formedness) (assertion batch 22),Passed,00:00:00.0103087,12456,2
Markers.RunSkipped (correctness) (assertion batch 7),Passed,00:00:00.0101044,8324,2
Markers.SubstituteLiteral (correctness) (assertion batch 5),Passed,00:00:00.0100996,11552,2
Markers.LeadSpansTo (well-formedness) (assertion batch 1),Passed,00:00:00.0100726,8880,2
Markers.OccursInMiddle (correctness) (assertion batch 3),Passed,00:00:00.0100194,11000,2
Markers.SubstituteLiteral (correctness) (assertion batch 17),Passed,00:00:00.0098863,11861,2
Markers.SubstituteLiteral (correctness) (assertion batch 4),Passed,00:00:00.0098808,10487,2
Markers.Substitute (well-formedness) (assertion batch 28),Passed,00:00:00.0098802,10197,2
Markers.Substitute (well-formedness) (assertion batch 4),Passed,00:00:00.0098028,10204,2
Markers.Substitute (well-formedness) (assertion batch 5),Passed,00:00:00.0097196,10584,2
Markers.InText (well-formedness) (assertion batch 2),Passed,00:00:00.0096888,10073,2
Markers.Substitute (well-formedness) (assertion batch 13),Passed,00:00:00.0096433,11607,2
Markers.WordAt (well-formedness) (assertion batch 2),Passed,00:00:00.0094623,10000,2
Markers.InText (well-formedness) (assertion batch 1),Passed,00:00:00.0092861,7713,2
Markers.InText (well-formedness) (assertion batch 3),Passed,00:00:00.0091453,10269,2
Markers.RunEnd (well-formedness) (assertion batch 1),Passed,00:00:00.0091412,9530,2
Markers.NoDollar (well-formedness),Passed,00:00:00.0090344,5767,2
Markers.ReplaceFirst (well-formedness) (assertion batch 1),Passed,00:00:00.0089311,7610,2
Markers.FindMarker (well-formedness) (assertion batch 2),Passed,00:00:00.0079740,7677,2
