TestResult.DisplayName,TestResult.Outcome,TestResult.Duration,TestResult.ResourceCount,RandomSeed
LinAlg.SolveSystemQR (correctness),Failed,00:00:02.6446667,5071715,2
LinAlg.SolveSystemQR (well-formedness),Passed,00:00:00.1655911,101342,2
