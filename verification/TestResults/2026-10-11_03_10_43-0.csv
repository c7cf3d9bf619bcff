TestResult.DisplayName,TestResult.Outcome,TestResult.Duration,TestResult.ResourceCount,RandomSeed
Coordinator.PollProperties (correctness),Passed,00:00:00.3044180,463327,0
Coordinator.PollsAgree (correctness),Passed,00:00:00.2964255,475017,0
Coordinator.CycleProperties (correctness),Passed,00:00:00.2957221,413823,0
Coordinator.PollCorrectedProperties (correctness),Passed,00:00:00.2924703,468137,0
Coordinator.FailedReconnectThenInterval (well-formedness),Passed,00:00:00.2344863,288964,0
Coordinator.CycleCorrectedProperties (correctness),Passed,00:00:00.2290460,367210,0
Statistics.HeatOffAddsRuntime (well-formedness),Passed,00:00:00.2287175,65622,0
Coordinator.PollCorrectedProperties (well-formedness),Passed,00:00:00.2217979,331183,0
Coordinator.FailedReconnectThenInterval (correctness),Passed,00:00:00.2174672,318417,0
Coordinator.RunAsWritten (well-formedness),Passed,00:00:00.2172582,334236,0
Coordinator.OfflineLeftCorrected (well-formedness),Passed,00:00:00.2099280,282325,0
Coordinator.PollCorrected (well-formedness),Passed,00:00:00.2093017,321847,0
Coordinator.OfflineLeftCorrected (correctness),Passed,00:00:00.2061742,295488,0
Coordinator.DetectProperties (correctness),Passed,00:00:00.2000134,562379,0
Coordinator.OfflineStaysAsWritten (well-formedness),Passed,00:00:00.1995824,280275,0
ConfigFlow.Lower (well-formedness),Passed,00:00:00.1992976,38826,0
Coordinator.PollAsWritten (well-formedness),Passed,00:00:00.1976909,328036,0
Coordinator.PollProperties (well-formedness),Passed,00:00:00.1964556,301316,0
Coordinator.TrackProperties (correctness),Passed,00:00:00.1949488,537308,0
ConfigFlow.DiscoveryStepProperties (correctness),Passed,00:00:00.1945747,375849,0
Coordinator.PollsAgree (well-formedness),Passed,00:00:00.1939907,285564,0
Coordinator.OfflineStaysAsWritten (correctness),Passed,00:00:00.1846640,366889,0
Coordinator.CycleProperties (well-formedness),Passed,00:00:00.1776081,301149,0
Coordinator.CycleAsWritten (well-formedness),Passed,00:00:00.1750928,263523,0
Common.Option.GetOr (well-formedness),Passed,00:00:00.1554886,7627,0
ConfigFlow.NormalizedShape (correctness),Passed,00:00:00.1513695,206148,0
Coordinator.CycleCorrected (well-formedness),Passed,00:00:00.1513348,262873,0
Common.byte (well-formedness),Passed,00:00:00.1503046,3672,0
ConfigFlow.JoinFromMacChars (correctness),Passed,00:00:00.1502860,530658,0
Coordinator.ReadTemperatures (well-formedness),Passed,00:00:00.1489435,173356,0
ConfigFlow.CreatesFresh (well-formedness),Passed,00:00:00.1476024,59706,0
Api.ConnectFrom (well-formedness),Passed,00:00:00.1473698,506773,0
Coordinator.CycleCorrectedProperties (well-formedness),Passed,00:00:00.1459052,310584,0
Coordinator.RingKeepsLast (correctness),Passed,00:00:00.1446596,435085,0
ConfigFlow.ScanFilter (well-formedness),Passed,00:00:00.1444557,307374,0
ConfigFlow.ScanKeepsVolcanoes (correctness),Passed,00:00:00.1358545,496817,0
ConfigFlow.NormalizeIffKey (correctness),Passed,00:00:00.1266466,341576,0
Coordinator.CompleteFacts (correctness),Passed,00:00:00.1262698,216295,0
ConfigFlow.StripJoinFrom (correctness),Passed,00:00:00.1241521,295543,0
Api.SetFan (well-formedness),Passed,00:00:00.1220587,242110,0
Coordinator.NewDayStartKeptCorrected (correctness),Passed,00:00:00.1219004,180889,0
Api.HandleTemperatureNotification (well-formedness),Passed,00:00:00.1199944,43374,0
Api.SetHeat (well-formedness),Passed,00:00:00.1190148,236543,0
ConfigFlow.ScanFilterAppend (correctness),Passed,00:00:00.1136391,276932,0
Statistics.Finish (well-formedness),Passed,00:00:00.1062669,30793,0
Api.AfterDisconnectEverythingFails (correctness),Passed,00:00:00.1052047,135536,0
Coordinator.TrackThenResetProperties (well-formedness),Passed,00:00:00.1044988,100484,0
Api.GetTargetTemperature (well-formedness),Passed,00:00:00.0998821,75575,0
ConfigFlow.StripClean (correctness),Passed,00:00:00.0987437,33388,0
Coordinator.NewDayStartKeptCorrected (well-formedness),Passed,00:00:00.0977859,130119,0
Api.ReadCounter (well-formedness),Passed,00:00:00.0960548,52829,0
ConfigFlow.BluetoothStepProperties (correctness),Passed,00:00:00.0944112,207661,0
Codec.DecodeStatus (well-formedness),Passed,00:00:00.0917282,31243,0
ConfigFlow.DiscoveryStepProperties (well-formedness),Passed,00:00:00.0904841,162779,0
Api.SetThenGetTarget (correctness),Passed,00:00:00.0886738,125659,0
ConfigFlow.NormalizeIdempotent (correctness),Passed,00:00:00.0881175,253275,0
Codec.StatusIgnoresOtherBits (well-formedness),Passed,00:00:00.0864004,21332,0
Statistics.FavoriteTemperature (correctness),Passed,00:00:00.0861692,90354,0
Statistics.SinceMembers (correctness),Passed,00:00:00.0861188,105877,0
Coordinator.Track (well-formedness),Passed,00:00:00.0855489,98340,0
ConfigFlow.Select (well-formedness),Passed,00:00:00.0834161,164119,0
Coordinator.NewDayStartLostAsWritten (correctness),Passed,00:00:00.0809532,168802,0
ConfigFlow.IdentificationIgnoresCase (correctness),Passed,00:00:00.0809076,129001,0
Statistics.HeatOffResetsLastUse (correctness),Passed,00:00:00.0793236,192719,0
Statistics.HistoryOnlyGrows (correctness),Passed,00:00:00.0785327,143227,0
Coordinator.CompleteFacts (well-formedness),Passed,00:00:00.0756029,125766,0
Coordinator.DynamicInterval (well-formedness),Passed,00:00:00.0741260,70579,0
Statistics.LatestEnd (well-formedness),Passed,00:00:00.0725778,50770,0
Coordinator.AppendThenQuery (correctness),Passed,00:00:00.0720208,21713,0
ConfigFlow.ManualStepProperties (correctness),Passed,00:00:00.0719723,172480,0
ConfigFlow.UpperIdle (correctness),Passed,00:00:00.0699285,25502,0
Api.GetDeviceState (well-formedness),Passed,00:00:00.0691739,111677,0
Coordinator.TrackingProperties (correctness),Passed,00:00:00.0690171,141973,0
ConfigFlow.BluetoothStepProperties (well-formedness),Passed,00:00:00.0676857,97427,0
ConfigFlow.KeyIgnoresTail (correctness),Passed,00:00:00.0672480,112554,0
ConfigFlow.IdentificationIgnoresCase (well-formedness),Passed,00:00:00.0668298,83923,0
Coordinator.TrackingProperties (well-formedness),Passed,00:00:00.0635045,110427,0
Coordinator.NewDayStartLostAsWritten (well-formedness),Passed,00:00:00.0629240,129769,0
ConfigFlow.JoinFromChars (correctness),Passed,00:00:00.0625957,149723,0
Coordinator.NextData (well-formedness),Passed,00:00:00.0623546,19522,0
ConfigFlow.UpperStrip (correctness),Passed,00:00:00.0619050,90494,0
Coordinator.TrackThenResetProperties (correctness),Passed,00:00:00.0617466,123645,0
Coordinator.ResetDaily (well-formedness),Passed,00:00:00.0605728,29702,0
ConfigFlow.NormalizedChars (correctness),Passed,00:00:00.0598079,59059,0
Api.SetTargetTemperature (well-formedness),Passed,00:00:00.0596898,96423,0
ConfigFlow.JoinFromLayout (correctness),Passed,00:00:00.0584339,177738,0
ConfigFlow.DiscoveryStep (well-formedness),Passed,00:00:00.0571563,85558,0
Api.Connect (well-formedness),Passed,00:00:00.0570379,162592,0
ConfigFlow.NormalizedShape (well-formedness),Passed,00:00:00.0561458,50237,0
ConfigFlow.ScanMatches (well-formedness),Passed,00:00:00.0553381,39881,0
ConfigFlow.LowerForgetsCase (correctness),Passed,00:00:00.0553295,55632,0
Statistics.HeatOffAddsRuntime (correctness),Passed,00:00:00.0547089,93695,0
ConfigFlow.ContainsLower (correctness),Passed,00:00:00.0539633,65154,0
Statistics.AverageSessionDuration (well-formedness),Passed,00:00:00.0534221,90707,0
Codec.StatusIgnoresOtherBits (correctness),Passed,00:00:00.0533347,463891,0
ConfigFlow.IsVolcanoDevice (well-formedness),Passed,00:00:00.0520337,74750,0
ConfigFlow.NormalizeIgnoresCase (correctness),Passed,00:00:00.0511615,74402,0
Coordinator.ResetThenTrack (well-formedness),Passed,00:00:00.0507856,102215,0
Coordinator.Detect (well-formedness),Passed,00:00:00.0506930,102279,0
Coordinator.Complete (well-formedness),Passed,00:00:00.0506076,108403,0
Coordinator.TrackProperties (well-formedness),Passed,00:00:00.0501211,105145,0
Api.SetScreenBrightness (well-formedness),Passed,00:00:00.0499239,78439,0
Coordinator.DetectEnd (well-formedness),Passed,00:00:00.0495119,103238,0
Coordinator.FetchDeviceInfo (well-formedness),Passed,00:00:00.0490307,90525,0
Statistics.GetDiagnostics (correctness),Passed,00:00:00.0485238,108688,0
Coordinator.TrackThenReset (well-formedness),Passed,00:00:00.0475382,98756,0
Api.SetThenGetTarget (well-formedness),Passed,00:00:00.0469196,80227,0
ConfigFlow.ManualStepProperties (well-formedness),Passed,00:00:00.0463763,69871,0
Coordinator.DetectProperties (well-formedness),Passed,00:00:00.0456035,93283,0
Statistics.OnDayMembers (correctness),Passed,00:00:00.0454689,128634,0
Coordinator.IntervalAsWritten (well-formedness),Passed,00:00:00.0451538,33357,0
ConfigFlow.AlreadyConfiguredIff (correctness),Passed,00:00:00.0442494,67638,0
Coordinator.Reconnect (well-formedness),Passed,00:00:00.0430427,94528,0
Coordinator.DetectStart (well-formedness),Passed,00:00:00.0429825,56345,0
Coordinator.Init (well-formedness),Passed,00:00:00.0429070,40703,0
Statistics.RecordTemperatureChange (well-formedness),Passed,00:00:00.0426864,86067,0
Coordinator.OfflineSnapshotRaisesAsWritten (correctness),Passed,00:00:00.0417920,26925,0
Api.HandleStatusNotification (well-formedness),Passed,00:00:00.0412324,51537,0
ConfigFlow.Matching (well-formedness),Passed,00:00:00.0411432,58187,0
ConfigFlow.MacKey (well-formedness),Passed,00:00:00.0408227,38433,0
Statistics.AverageWithinBounds (correctness),Passed,00:00:00.0404673,78054,0
ConfigFlow.StripMacChars (correctness),Passed,00:00:00.0392641,49710,0
Statistics.HeatOffCountsToday (correctness),Passed,00:00:00.0387560,76748,0
Common.Sum (well-formedness),Passed,00:00:00.0382254,9665,0
Coordinator.StatsOf (well-formedness),Passed,00:00:00.0379115,45362,0
Statistics.MaxOfAppend (correctness),Passed,00:00:00.0378998,86935,0
ConfigFlow.NormalizeIgnoresTail (correctness),Passed,00:00:00.0378089,41777,0
ConfigFlow.NormalizeIgnoresSeparators (correctness),Passed,00:00:00.0373799,46235,0
Statistics.MostFrequent (correctness),Passed,00:00:00.0373320,114579,0
ConfigFlow.Upper (well-formedness),Passed,00:00:00.0366319,38826,0
ConfigFlow.AlreadyConfiguredIff (well-formedness),Passed,00:00:00.0365492,49956,0
Coordinator.SlowPath (well-formedness),Passed,00:00:00.0362699,72467,0
ConfigFlow.UpperAppend (correctness),Passed,00:00:00.0361984,45431,0
ConfigFlow.StripPieceColon (correctness),Passed,00:00:00.0360205,45851,0
Coordinator.DetectReached (well-formedness),Passed,00:00:00.0352179,39126,0
ConfigFlow.CountJoinFrom (correctness),Passed,00:00:00.0351747,54594,0
ConfigFlow.UpperIdle (well-formedness),Passed,00:00:00.0350582,24079,0
Statistics.AverageWithinBounds (well-formedness),Passed,00:00:00.0344835,47920,0
Statistics.ApplyAll (well-formedness),Passed,00:00:00.0344320,60946,0
Statistics.HistoryOnlyGrows (well-formedness),Passed,00:00:00.0341561,60091,0
Api.GetCurrentTemperature (well-formedness),Passed,00:00:00.0336175,75574,0
ConfigFlow.StripPieceColon (well-formedness),Passed,00:00:00.0335557,23426,0
Common.MaxOf (well-formedness),Passed,00:00:00.0335398,33316,0
ConfigFlow.SliceOfPrefix (correctness),Passed,00:00:00.0324125,92494,0
Api.Init (well-formedness),Passed,00:00:00.0323618,15032,0
Coordinator.PrevInterval (well-formedness),Passed,00:00:00.0311914,58505,0
ConfigFlow.JoinFromTwelve (correctness),Passed,00:00:00.0311717,39201,0
Statistics.Since (well-formedness),Passed,00:00:00.0308531,48750,0
Statistics.WindowDurationsWithin (correctness),Passed,00:00:00.0308020,59214,0
Statistics.TotalRuntimeToday (well-formedness),Passed,00:00:00.0304278,40637,0
Statistics.Init (well-formedness),Passed,00:00:00.0303655,30127,0
ConfigFlow.StripAppend (correctness),Passed,00:00:00.0302677,57911,0
Statistics.MeanMinutesWithin (correctness),Passed,00:00:00.0297010,45572,0
Statistics.RecordHeatOff (well-formedness),Passed,00:00:00.0293081,54227,0
ConfigFlow.JoinFromMacChars (well-formedness),Passed,00:00:00.0279249,18952,0
Statistics.RecordHeatOn (well-formedness),Passed,00:00:00.0278773,38035,0
Statistics.FinishedRecordBounds (correctness),Passed,00:00:00.0277236,40877,0
Statistics.OnDay (well-formedness),Passed,00:00:00.0272682,53860,0
ConfigFlow.FoundOf (well-formedness),Passed,00:00:00.0272076,16930,0
Statistics.WindowDurationsWithin (well-formedness),Passed,00:00:00.0272042,36710,0
ConfigFlow.JoinFrom (well-formedness),Passed,00:00:00.0271665,21313,0
ConfigFlow.CountJoinFrom (well-formedness),Passed,00:00:00.0270100,19839,0
Statistics.TimeSinceLastUse (well-formedness),Passed,00:00:00.0266724,48460,0
Codec.TenthsRoundTrip (correctness),Passed,00:00:00.0266693,42943,0
ConfigFlow.Join (well-formedness),Passed,00:00:00.0263223,17102,0
ConfigFlow.JoinFromChars (well-formedness),Passed,00:00:00.0261285,20381,0
ConfigFlow.StripJoinFrom (well-formedness),Passed,00:00:00.0259475,25445,0
ConfigFlow.CountAppend (correctness),Passed,00:00:00.0256535,37810,0
Statistics.HeatOffResetsLastUse (well-formedness),Passed,00:00:00.0251786,52277,0
ConfigFlow.JoinFromTwelve (well-formedness),Passed,00:00:00.0251431,18741,0
ConfigFlow.StripKeepsChars (correctness),Passed,00:00:00.0249795,40542,0
Statistics.MaxOfAppend (well-formedness),Passed,00:00:00.0247134,14000,0
Coordinator.TruncDiv (well-formedness),Passed,00:00:00.0240508,45114,0
Coordinator.TruncDivUnique (correctness),Passed,00:00:00.0233179,20253,0
Statistics.Durations (well-formedness),Passed,00:00:00.0231032,36990,0
ConfigFlow.JoinFromLayout (well-formedness),Passed,00:00:00.0227656,22012,0
ConfigFlow.OccursAt (well-formedness),Passed,00:00:00.0225769,10639,0
Api.HandleDisconnect (well-formedness),Passed,00:00:00.0225700,32398,0
Statistics.MostFrequent (well-formedness),Passed,00:00:00.0225699,13799,0
ConfigFlow.Chosen (well-formedness),Passed,00:00:00.0224484,26650,0
Api.Disconnect (well-formedness),Passed,00:00:00.0223146,36523,0
ConfigFlow.SliceSplit (correctness),Passed,00:00:00.0219983,57521,0
ConfigFlow.StripKeepsChars (well-formedness),Passed,00:00:00.0218679,17439,0
Statistics.StartTemps (well-formedness),Passed,00:00:00.0218524,36990,0
ConfigFlow.StripSeparators (well-formedness),Passed,00:00:00.0217223,36718,0
ConfigFlow.Slice (well-formedness),Passed,00:00:00.0215308,27862,0
Statistics.IsFavorite (well-formedness),Passed,00:00:00.0213479,29714,0
Statistics.DurationsAppend (correctness),Passed,00:00:00.0212298,31943,0
Coordinator.FanEvents (well-formedness),Passed,00:00:00.0210087,35594,0
ConfigFlow.MacChars (well-formedness),Passed,00:00:00.0208427,10443,0
Statistics.FiltersAppend (correctness),Passed,00:00:00.0207172,38110,0
Api.IsConnected (well-formedness),Passed,00:00:00.0206044,9240,0
ConfigFlow.StripMacChars (well-formedness),Passed,00:00:00.0203767,17978,0
Coordinator.Ticks (well-formedness),Passed,00:00:00.0201691,15507,0
Statistics.QuotientWithin (correctness),Passed,00:00:00.0198845,9362,0
Api.SetDisconnectCallback (well-formedness),Passed,00:00:00.0198561,20721,0
Coordinator.HasFanEvent (well-formedness),Passed,00:00:00.0197748,15642,0
Codec.TenthsRoundTrip (well-formedness),Passed,00:00:00.0194754,25455,0
Coordinator.Ring (well-formedness),Passed,00:00:00.0193475,19048,0
Codec.EncodeDecodeWithinTenth (correctness),Passed,00:00:00.0193336,39678,0
Statistics.SumAtMost (correctness),Passed,00:00:00.0192085,20756,0
Codec.DecodeBrightness (well-formedness),Passed,00:00:00.0191500,17689,0
Coordinator.IntervalTable (correctness),Passed,00:00:00.0191389,11166,0
ConfigFlow.StripClean (well-formedness),Passed,00:00:00.0191126,15543,0
Api.ReadTemperature (well-formedness),Passed,00:00:00.0189808,41839,0
Statistics.Valid (well-formedness),Passed,00:00:00.0187942,24330,0
Statistics.SinceMembers (well-formedness),Passed,00:00:00.0185607,23651,0
Statistics.ValidSession (well-formedness),Passed,00:00:00.0181097,18449,0
ConfigFlow.SliceSplit (well-formedness),Passed,00:00:00.0178047,13956,0
Statistics.MeanMinutesWithin (well-formedness),Passed,00:00:00.0177674,13527,0
ConfigFlow.CountAbsent (correctness),Passed,00:00:00.0176906,16054,0
Statistics.Temps (well-formedness),Passed,00:00:00.0176370,6317,0
Statistics.SessionsToday (well-formedness),Passed,00:00:00.0172738,27700,0
Coordinator.ACTIVE_INTERVAL (well-formedness),Passed,00:00:00.0171122,3752,0
ConfigFlow.LowerChar (well-formedness),Passed,00:00:00.0170929,7009,0
Coordinator.RingKeepsLast (well-formedness),Passed,00:00:00.0166664,15801,0
Coordinator.LastDuration (well-formedness),Passed,00:00:00.0164995,10038,0
ConfigFlow.Count (well-formedness),Passed,00:00:00.0164306,13783,0
Common.SumAppend (correctness),Passed,00:00:00.0164238,17244,0
Statistics.SumAtMost (well-formedness),Passed,00:00:00.0164196,9003,0
Coordinator.AppendCapped (well-formedness),Passed,00:00:00.0163270,19636,0
Codec.PackU16 (well-formedness),Passed,00:00:00.0160244,13523,0
Statistics.Occurrences (well-formedness),Passed,00:00:00.0153548,11595,0
Coordinator.IntervalFor (well-formedness),Passed,00:00:00.0152664,12968,0
Codec.EncodeTemperature (well-formedness),Passed,00:00:00.0150572,28772,0
ConfigFlow.CountAbsent (well-formedness),Passed,00:00:00.0149580,9824,0
Statistics.MeanWithin (correctness),Passed,00:00:00.0148731,31445,0
Codec.UnpackIgnoresTail (correctness),Passed,00:00:00.0146404,19036,0
Codec.DecodeTemperature (well-formedness),Passed,00:00:00.0146079,27325,0
Codec.UnpackU16 (well-formedness),Passed,00:00:00.0145937,23617,0
Codec.UnpackPack (correctness),Passed,00:00:00.0144928,18620,0
Coordinator.COOLING_INTERVAL (well-formedness),Passed,00:00:00.0142631,3752,0
Codec.TruncatedTenths (well-formedness),Passed,00:00:00.0142308,10685,0
Statistics.SumAtLeast (correctness),Passed,00:00:00.0140823,20807,0
Statistics.FinishedRecordBounds (well-formedness),Passed,00:00:00.0139569,26343,0
ConfigFlow.SliceOfPrefix (well-formedness),Passed,00:00:00.0139522,14059,0
Codec.EncodeDecodeWithinTenth (well-formedness),Passed,00:00:00.0137300,22991,0
Coordinator.AverageDuration (well-formedness),Passed,00:00:00.0132891,19440,0
ConfigFlow.UpperChar (well-formedness),Passed,00:00:00.0132696,7009,0
Codec.UnpackPack (well-formedness),Passed,00:00:00.0130534,14305,0
Statistics.Mean (well-formedness),Passed,00:00:00.0129524,13829,0
Codec.PackUnpack (well-formedness),Passed,00:00:00.0128294,16247,0
Codec.PackUnpack (correctness),Passed,00:00:00.0127270,18619,0
Coordinator.DivBounds (well-formedness),Passed,00:00:00.0125875,4739,0
Codec.BrightnessRoundTrip (correctness),Passed,00:00:00.0125690,20066,0
Coordinator.FAST_INTERVAL (well-formedness),Passed,00:00:00.0123159,3752,0
Statistics.OnDayMembers (well-formedness),Passed,00:00:00.0119945,23490,0
Codec.EncodeBrightness (well-formedness),Passed,00:00:00.0117790,20038,0
Statistics.PerItemMinutes (well-formedness),Passed,00:00:00.0115857,8026,0
Codec.HasMask (well-formedness),Passed,00:00:00.0112406,4779,0
Codec.BrightnessRoundTrip (well-formedness),Passed,00:00:00.0110939,18498,0
Coordinator.SessionEnding (well-formedness),Passed,00:00:00.0108800,18049,0
Coordinator.TruncDivUnique (well-formedness),Passed,00:00:00.0108154,7793,0
Coordinator.HasStart (well-formedness),Passed,00:00:00.0104931,15021,0
Coordinator.MulMono (correctness),Passed,00:00:00.0104161,4267,0
Statistics.MeanWithin (well-formedness),Passed,00:00:00.0097853,11352,0
Statistics.MinutesTimesCount (correctness),Passed,00:00:00.0092045,4969,0
Api.ConfirmedFlag (well-formedness),Passed,00:00:00.0087216,14216,0
Statistics.SumAtLeast (well-formedness),Passed,00:00:00.0086215,9003,0
Coordinator.BASE_INTERVAL (well-formedness),Passed,00:00:00.0084982,3752,0
Statistics.QuotientWithin (well-formedness),Passed,00:00:00.0084569,4021,0
Coordinator.DivBounds (correctness),Passed,00:00:00.0083047,11733,0
Statistics.MinutesTimesCount (well-formedness),Passed,00:00:00.0081881,3901,0
Coordinator.MAX_DURATIONS (well-formedness),Passed,00:00:00.0076153,3752,0
Coordinator.INFO_EVERY (well-formedness),Passed,00:00:00.0069424,3752,0
Api.Rounds (well-formedness),Passed,00:00:00.0064727,4962,0
